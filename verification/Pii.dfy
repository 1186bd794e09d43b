/**
 The envelope that stored personal data travels in (app/security/encryption.py): a version marker and the
 Base64 of nonce and ChaCha20-Poly1305 ciphertext. The cipher (section 2.8 of RFC 8439) and UTF-8 are
 parameters with their laws; Base64 is spelled out.
 */
module Pii {
  import opened Common
  import opened Text
  import Base64

  const ENVELOPE_PREFIX := "svpii:v1:"
  const LEGACY_PLAINTEXT_PREFIX := "svpii:legacy-plaintext:v0:"
  const NONCE_BYTES: nat := 12
  const TAG_BYTES: nat := 16

  /** The associated data of an envelope, or none for the old unversioned ciphertext. */
  datatype Associated = VoterPii | NoData

  type Nonce = n: seq<Byte> | |n| == NONCE_BYTES witness seq(NONCE_BYTES, i => 0)

  datatype Cipher = Cipher(
    seal: (Nonce, seq<Byte>, Associated) -> seq<Byte>,
    open: (Nonce, seq<Byte>, Associated) -> Option<seq<Byte>>,
    utf8: string -> seq<Byte>,
    text: seq<Byte> -> Option<string>)
  {
    ghost predicate Lawful() {
      && (forall n: Nonce, p: seq<Byte>, a: Associated :: open(n, seal(n, p, a), a) == Some(p))
      && (forall n: Nonce, p: seq<Byte>, a: Associated :: |seal(n, p, a)| == |p| + TAG_BYTES)
      && (forall s: string :: text(utf8(s)) == Some(s) && |utf8(s)| <= 4 * |s|)
    }

    /** What was sealed with other associated data does not authenticate. */
    ghost predicate Authentic() {
      forall n: Nonce, p: seq<Byte>, a: Associated, b: Associated :: a != b ==> open(n, seal(n, p, a), b).None?
    }
  }

  // ---------------------------------------------------------------- envelopes

  predicate IsCurrent(value: string)
  {
    StartsWith(value, ENVELOPE_PREFIX)
  }

  function Encrypt(c: Cipher, plaintext: string, nonce: Nonce): (value: string)
  {
    ENVELOPE_PREFIX + Base64.Encode(nonce + c.seal(nonce, c.utf8(plaintext), VoterPii))
  }

  /** Strict decoding. Surrounding white space is outside the Base64 alphabet and refused with the rest. */
  function DecodePayload(payload: string): (combined: Option<seq<Byte>>)
    ensures combined.Some? ==> |combined.value| >= NONCE_BYTES + TAG_BYTES
  {
    if payload == "" || |payload| % 4 != 0 then None
    else
      var combined := Base64.Decode(payload);
      if combined.None? || |combined.value| < NONCE_BYTES + TAG_BYTES then None else combined
  }

  function DecryptCombined(c: Cipher, combined: seq<Byte>, a: Associated): (plaintext: Option<string>)
    requires |combined| >= NONCE_BYTES
  {
    var bytes := c.open(combined[..NONCE_BYTES], combined[NONCE_BYTES..], a);
    if bytes.None? then None else c.text(bytes.value)
  }

  function DecryptPayload(c: Cipher, payload: string, a: Associated): (plaintext: Option<string>)
  {
    var combined := DecodePayload(payload);
    if combined.None? then None else DecryptCombined(c, combined.value, a)
  }

  /** Reading a stored value: only a current envelope that authenticates yields text. */
  function Decrypt(c: Cipher, value: string): (plaintext: Option<string>)
  {
    if !IsCurrent(value) then None else DecryptPayload(c, value[|ENVELOPE_PREFIX|..], VoterPii)
  }

  lemma DecryptSealed(c: Cipher, plaintext: string, nonce: Nonce, a: Associated)
    requires c.Lawful()
    ensures DecryptPayload(c, Base64.Encode(nonce + c.seal(nonce, c.utf8(plaintext), a)), a) == Some(plaintext)
  {
    var bytes := c.utf8(plaintext);
    var sealed := c.seal(nonce, bytes, a);
    assert |sealed| == |bytes| + TAG_BYTES;
    DecodePayloadOf(nonce + sealed);
    assert c.open(nonce, sealed, a) == Some(bytes) && c.text(bytes) == Some(plaintext);
    DecryptJoined(c, nonce, sealed, a, bytes);
  }

  lemma DecodePayloadOf(combined: seq<Byte>)
    requires |combined| >= NONCE_BYTES + TAG_BYTES
    ensures DecodePayload(Base64.Encode(combined)) == Some(combined)
  {
    Base64.RoundTrip(combined);
    Base64.EncodeWhole(combined);
    PayloadOf(Base64.Encode(combined), combined);
  }

  lemma PayloadOf(payload: string, combined: seq<Byte>)
    requires payload != "" && |payload| % 4 == 0 && Base64.Decode(payload) == Some(combined)
    requires |combined| >= NONCE_BYTES + TAG_BYTES
    ensures DecodePayload(payload) == Some(combined)
  {
  }

  lemma DecryptJoined(c: Cipher, nonce: Nonce, sealed: seq<Byte>, a: Associated, bytes: seq<Byte>)
    requires c.open(nonce, sealed, a) == Some(bytes)
    ensures DecryptCombined(c, nonce + sealed, a) == c.text(bytes)
  {
    assert (nonce + sealed)[..NONCE_BYTES] == nonce && (nonce + sealed)[NONCE_BYTES..] == sealed;
  }

  /** What is encrypted is read back, whatever the nonce. */
  lemma DecryptEncrypt(c: Cipher, plaintext: string, nonce: Nonce)
    requires c.Lawful()
    ensures IsCurrent(Encrypt(c, plaintext, nonce)) && Decrypt(c, Encrypt(c, plaintext, nonce)) == Some(plaintext)
  {
    var payload := Base64.Encode(nonce + c.seal(nonce, c.utf8(plaintext), VoterPii));
    DecryptSealed(c, plaintext, nonce, VoterPii);
    AfterPrefix(ENVELOPE_PREFIX, payload);
    assert (ENVELOPE_PREFIX + payload)[..|ENVELOPE_PREFIX|] == ENVELOPE_PREFIX;
  }

  /**
   Envelopes and old ciphertext cannot stand in for each other: the payload of one, relabelled as the other, is
   refused.
   */
  lemma RelabelledIsRefused(c: Cipher, plaintext: string, nonce: Nonce, fernet: Option<string -> Option<string>>)
    requires c.Lawful() && c.Authentic()
    ensures var old' := Base64.Encode(nonce + c.seal(nonce, c.utf8(plaintext), NoData));
            Decrypt(c, "svpii:v1:" + old').None?
    ensures var current := Encrypt(c, plaintext, nonce);
            |current| > 9 && Meaning(c, current[9..], LegacyChaCha, fernet).None?
  {
    var sealed, sealed' := c.seal(nonce, c.utf8(plaintext), NoData), c.seal(nonce, c.utf8(plaintext), VoterPii);
    var old', payload := Base64.Encode(nonce + sealed), Base64.Encode(nonce + sealed');
    assert |sealed| == |sealed'| == |c.utf8(plaintext)| + TAG_BYTES;
    DecodePayloadOf(nonce + sealed);
    DecodePayloadOf(nonce + sealed');
    assert c.open(nonce, sealed, VoterPii).None? && c.open(nonce, sealed', NoData).None?;
    assert (nonce + sealed)[..NONCE_BYTES] == nonce && (nonce + sealed)[NONCE_BYTES..] == sealed;
    assert (nonce + sealed')[..NONCE_BYTES] == nonce && (nonce + sealed')[NONCE_BYTES..] == sealed';
    AfterPrefix(ENVELOPE_PREFIX, old');
    AfterPrefix(ENVELOPE_PREFIX, payload);
    EncodedIsNotCurrent(nonce + sealed');
  }

  // ---------------------------------------------------------------- lengths

  /** The length of a plaintext's envelope; the nonce does not matter. */
  function EnvelopeLength(c: Cipher, plaintext: string): (n: nat)
  {
    |ENVELOPE_PREFIX| + (NONCE_BYTES + |c.utf8(plaintext)| + TAG_BYTES + 2) / 3 * 4
  }

  lemma EncryptLength(c: Cipher, plaintext: string, nonce: Nonce)
    requires c.Lawful()
    ensures |Encrypt(c, plaintext, nonce)| == EnvelopeLength(c, plaintext)
  {
    assert |c.seal(nonce, c.utf8(plaintext), VoterPii)| == |c.utf8(plaintext)| + TAG_BYTES;
  }

  const LICENCE_CAPACITY: nat := 255
  const LONG_CAPACITY: nat := 1536
  const SHORT_CAPACITY: nat := 512

  /** How many bytes of text an envelope column holds: exactly these and no more. */
  lemma FitsIff(c: Cipher, plaintext: string, capacity: nat)
    requires capacity >= |ENVELOPE_PREFIX|
    ensures EnvelopeLength(c, plaintext) <= capacity <==>
              |c.utf8(plaintext)| <= (capacity - |ENVELOPE_PREFIX|) / 4 * 3 - NONCE_BYTES - TAG_BYTES
  {
    assert |ENVELOPE_PREFIX| == 9;
  }

  /** Any text of the legacy limits fits its column, whatever its script. */
  lemma LegacyLimitsFit(c: Cipher, plaintext: string)
    requires c.Lawful()
    ensures |plaintext| <= 255 ==> EnvelopeLength(c, plaintext) <= 1409 <= LONG_CAPACITY
    ensures |plaintext| <= 50 ==> EnvelopeLength(c, plaintext) <= 313 <= SHORT_CAPACITY
    ensures |plaintext| <= 38 ==> EnvelopeLength(c, plaintext) <= LICENCE_CAPACITY
  {
    assert |c.utf8(plaintext)| <= 4 * |plaintext|;
    assert |ENVELOPE_PREFIX| == 9;
  }

  // ---------------------------------------------------------------- conversion of one value

  datatype Source = LegacyChaCha | LegacyFernet | MarkedPlaintext

  /** What a stored value means once the operator has said what the non-current values are. */
  function Meaning(c: Cipher, value: string, source: Source,
                   fernet: Option<string -> Option<string>>): (p: Option<string>)
  {
    if IsCurrent(value) then Decrypt(c, value)
    else match source
      case LegacyChaCha => DecryptPayload(c, value, NoData)
      case LegacyFernet => if fernet.None? then None else fernet.value(value)
      case MarkedPlaintext =>
        if StartsWith(value, LEGACY_PLAINTEXT_PREFIX) then Some(value[|LEGACY_PLAINTEXT_PREFIX|..]) else None
  }

  function MigrateLegacyPlaintext(c: Cipher, marked: string, nonce: Nonce): (value: Option<string>)
  {
    if !StartsWith(marked, LEGACY_PLAINTEXT_PREFIX) then None
    else Some(Encrypt(c, marked[|LEGACY_PLAINTEXT_PREFIX|..], nonce))
  }

  function MigrateLegacyCiphertext(c: Cipher, unversioned: string, nonce: Nonce): (value: Option<string>)
  {
    if IsCurrent(unversioned) then None
    else
      var plaintext := DecryptPayload(c, unversioned, NoData);
      if plaintext.None? then None else Some(Encrypt(c, plaintext.value, nonce))
  }

  datatype Conversion = Conversion(value: string, changed: bool)

  function Convert(c: Cipher, value: string, source: Source, fernet: Option<string -> Option<string>>, nonce: Nonce):
    (r: Option<Conversion>)
  {
    if IsCurrent(value) then
      if Decrypt(c, value).None? then None else Some(Conversion(value, false))
    else
      var migrated := match source
        case LegacyChaCha => MigrateLegacyCiphertext(c, value, nonce)
        case LegacyFernet =>
          if fernet.None? || fernet.value(value).None? then None else Some(Encrypt(c, fernet.value(value).value, nonce))
        case MarkedPlaintext => MigrateLegacyPlaintext(c, value, nonce);
      if migrated.None? then None else Some(Conversion(migrated.value, true))
  }

  /**
   Conversion succeeds exactly on values that mean something, keeps the meaning, leaves current values
   alone, and is idempotent: its result is current, so no source declaration converts it again.
   */
  lemma ConvertKeepsMeaning(c: Cipher, value: string, source: Source, fernet: Option<string -> Option<string>>,
                            nonce: Nonce)
    requires c.Lawful()
    ensures var r, meaning := Convert(c, value, source, fernet, nonce), Meaning(c, value, source, fernet);
            && (r.Some? <==> meaning.Some?)
            && (r.Some? ==>
                  && Decrypt(c, r.value.value) == meaning
                  && (r.value.changed <==> !IsCurrent(value))
                  && |r.value.value| == (if IsCurrent(value) then |value| else EnvelopeLength(c, meaning.value))
                  && (!r.value.changed ==> r.value.value == value)
                  && forall s, f, n :: Convert(c, r.value.value, s, f, n) == Some(Conversion(r.value.value, false)))
  {
    var meaning := Meaning(c, value, source, fernet);
    if !IsCurrent(value) && meaning.Some? {
      DecryptEncrypt(c, meaning.value, nonce);
      EncryptLength(c, meaning.value, nonce);
    }
  }

  /** Base64 has no colon, so no Base64 text is taken for an envelope. */
  lemma EncodedIsNotCurrent(b: seq<Byte>)
    ensures !IsCurrent(Base64.Encode(b))
  {
    var value := Base64.Encode(b);
    if IsCurrent(value) {
      var front := value[..|ENVELOPE_PREFIX|];
      assert value[5] == front[5];
      Base64.EncodeIsText(b, 5);
    }
  }

  /** The old unversioned ciphertext of a text is never taken for an envelope and means that text. */
  lemma UnversionedMeaning(c: Cipher, plaintext: string, nonce: Nonce, fernet: Option<string -> Option<string>>)
    requires c.Lawful()
    ensures var value := Base64.Encode(nonce + c.seal(nonce, c.utf8(plaintext), NoData));
            !IsCurrent(value) && Meaning(c, value, LegacyChaCha, fernet) == Some(plaintext)
  {
    DecryptSealed(c, plaintext, nonce, NoData);
    EncodedIsNotCurrent(nonce + c.seal(nonce, c.utf8(plaintext), NoData));
  }

  /** Marked plaintext means what follows the marker, and runtime reads refuse it. */
  lemma MarkedMeaning(c: Cipher, plaintext: string, fernet: Option<string -> Option<string>>)
    ensures var value := LEGACY_PLAINTEXT_PREFIX + plaintext;
            Decrypt(c, value).None? && Meaning(c, value, MarkedPlaintext, fernet) == Some(plaintext)
  {
    var value := LEGACY_PLAINTEXT_PREFIX + plaintext;
    AfterPrefix(LEGACY_PLAINTEXT_PREFIX, plaintext);
    assert value[..|LEGACY_PLAINTEXT_PREFIX|] == LEGACY_PLAINTEXT_PREFIX;
    assert value[..|ENVELOPE_PREFIX|][6] == value[6] == 'l';
  }
}
