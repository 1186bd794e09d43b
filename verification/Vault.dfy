/**
 The two pure parts of the Vault client that result provenance rests on (app/security/vault_client.py):
 reading the key version out of a Transit signature, and the identity string of a Transit key.
 */
module Vault {
  import opened Common
  import opened Text
  import Base64
  import Json

  // ---------------------------------------------------------------- signature envelopes

  /** Position of the first occurrence of a character, or the length. */
  function IndexOf(s: string, c: char): (i: nat)
    ensures i <= |s| && (i < |s| ==> s[i] == c) && forall j :: 0 <= j < i ==> s[j] != c
  {
    if s == "" || s[0] == c then 0 else 1 + IndexOf(s[1..], c)
  }

  /** One or more alphabet characters, then at most two pads. */
  predicate Base64Shape(s: string)
  {
    var body := IndexOf(s, '=');
    && body > 0 && |s| - body <= 2
    && (forall i :: 0 <= i < body ==> Base64.InAlphabet(s[i]))
    && (forall i :: body <= i < |s| ==> s[i] == '=')
  }

  /** `transit_signature_version`: the N of a complete `vault:vN:BASE64` envelope. */
  function SignatureVersion(signature: string): (version: Option<nat>)
  {
    if !StartsWith(signature, "vault:v") then None
    else
      var tail := signature[7..];
      var colon := IndexOf(tail, ':');
      if colon == 0 || colon == |tail| || tail[0] == '0' || !Json.AllDigits(tail[..colon]) then None
      else if !Base64Shape(tail[colon + 1..]) || Base64.Decode(tail[colon + 1..]).None? then None
      else Some(Json.ReadDigits(0, tail[..colon]))
  }

  /** An envelope built from a version and an encoded signature is read back as that version. */
  lemma EnvelopeVersion(version: nat, signature: seq<Byte>)
    requires version > 0 && signature != []
    ensures SignatureVersion("vault:v" + (Json.Decimal(version) + (":" + Base64.Encode(signature)))) == Some(version)
  {
    var digits, encoded := Json.Decimal(version), Base64.Encode(signature);
    var tail := digits + (":" + encoded);
    AfterPrefix("vault:v", tail);
    assert ("vault:v" + tail)[..7] == "vault:v";
    FirstOccurrence(digits, ':', encoded);
    assert tail[..|digits|] == digits;
    assert tail[|digits| + 1..] == encoded;
    Json.ReadDecimal(version);
    assert tail[0] == digits[0];
    EncodedShape(signature);
    Base64.RoundTrip(signature);
  }

  /** Nothing else is: whatever reads as a version is that envelope, around text that Base64 decodes. */
  lemma OnlyEnvelopes(s: string)
    requires SignatureVersion(s).Some?
    ensures var n := SignatureVersion(s).value;
            n > 0 && exists encoded ::
              && s == "vault:v" + (Json.Decimal(n) + (":" + encoded))
              && Base64Shape(encoded) && Base64.Decode(encoded).Some?
  {
    var tail := s[7..];
    var colon := IndexOf(tail, ':');
    var encoded := tail[colon + 1..];
    Rejoined(s, 7);
    assert s[..7] == "vault:v";
    ColonRejoined(tail, colon);
    Json.DecimalOfDigits(tail[..colon]);
  }

  lemma Rejoined(s: string, k: nat)
    requires k <= |s|
    ensures s == s[..k] + s[k..]
  {
  }

  lemma ColonRejoined(s: string, k: nat)
    requires k < |s| && s[k] == ':'
    ensures s == s[..k] + (":" + s[k + 1..])
  {
  }

  lemma FirstOccurrence(a: string, c: char, b: string)
    requires forall i :: 0 <= i < |a| ==> a[i] != c
    ensures IndexOf(a + ([c] + b), c) == |a|
  {
    var s := a + ([c] + b);
    assert s[|a|] == c;
    forall j | 0 <= j < |a| ensures s[j] != c {
      assert s[j] == a[j];
    }
    IndexUnique(s, c, |a|);
  }

  lemma IndexUnique(s: string, c: char, i: nat)
    requires i <= |s| && (i < |s| ==> s[i] == c) && forall j :: 0 <= j < i ==> s[j] != c
    ensures IndexOf(s, c) == i
  {
  }

  lemma ShapeFrom(s: string, body: nat)
    requires 0 < body <= |s| <= body + 2
    requires forall i :: 0 <= i < body ==> Base64.InAlphabet(s[i])
    requires forall i :: body <= i < |s| ==> s[i] == '='
    ensures Base64Shape(s)
  {
    IndexUnique(s, '=', body);
  }

  lemma ShapeCons(head: string, t: string)
    requires Base64Shape(t) && forall i :: 0 <= i < |head| ==> Base64.InAlphabet(head[i])
    ensures Base64Shape(head + t)
  {
    ShapeFrom(head + t, |head| + IndexOf(t, '='));
  }

  lemma ThreeInAlphabet(a: Byte, b: Byte, c: Byte, i: nat)
    requires i < 4
    ensures Base64.InAlphabet(Base64.EncodeThree(a, b, c)[i])
  {
  }

  /** What the encoder writes: alphabet characters and at most two pads, in that order. */
  lemma {:induction false} EncodedShape(b: seq<Byte>)
    requires b != []
    ensures Base64Shape(Base64.Encode(b))
  {
    if |b| <= 2 {
      ShapeFrom(Base64.Encode(b), |b| + 1);
    } else {
      var head := Base64.EncodeThree(b[0], b[1], b[2]);
      forall i | 0 <= i < 4 ensures Base64.InAlphabet(head[i]) {
        ThreeInAlphabet(b[0], b[1], b[2], i);
      }
      if |b| == 3 {
        assert Base64.Encode(b) == head;
        ShapeFrom(head, 4);
      } else {
        EncodedShape(b[3..]);
        ShapeCons(head, Base64.Encode(b[3..]));
      }
    }
  }

  // ---------------------------------------------------------------- key identity

  datatype Endpoint = Endpoint(cluster: Option<string>, namespace: string, mount: string)

  /** A component the identity string can carry. */
  predicate Plain(s: string)
  {
    s != "" && forall i :: 0 <= i < |s| ==> s[i] != '|' && s[i] != '='
  }

  /** An unset namespace is the root namespace. */
  function Namespace(e: Endpoint): (n: string)
  {
    if e.namespace == "" then "root" else e.namespace
  }

  function Joined(cluster: string, namespace: string, mount: string, key: string): (s: string)
  {
    "cluster=" + (cluster + ("|namespace=" + (namespace + ("|mount=" + (mount + ("|key=" + key))))))
  }

  /** `transit_key_identity`. */
  function KeyIdentity(e: Endpoint, key: string): (identity: Option<string>)
  {
    if e.cluster.None? || !Plain(e.cluster.value) || !Plain(Namespace(e)) || !Plain(e.mount) || !Plain(key) then None
    else
      var s := Joined(e.cluster.value, Namespace(e), e.mount, key);
      if |s| > 255 then None else Some(s)
  }

  /** A plain component ends where the next separator begins. */
  lemma SplitAtBar(a: string, x: string, b: string, y: string)
    requires Plain(a) && Plain(b) && a + ("|" + x) == b + ("|" + y)
    ensures a == b && x == y
  {
    FirstOccurrence(a, '|', x);
    FirstOccurrence(b, '|', y);
    var s := a + ("|" + x);
    assert a == s[..|a|] && b == s[..|b|];
    AfterPrefix(a, "|" + x);
    AfterPrefix(b, "|" + y);
    AfterPrefix("|", x);
    AfterPrefix("|", y);
  }

  lemma SplitAtLabel(a: string, tag: string, x: string, b: string, y: string)
    requires Plain(a) && Plain(b) && tag != "" && tag[0] == '|' && a + (tag + x) == b + (tag + y)
    ensures a == b && x == y
  {
    assert tag == "|" + tag[1..];
    Assoc("|", tag[1..], x);
    Assoc("|", tag[1..], y);
    SplitAtBar(a, tag[1..] + x, b, tag[1..] + y);
    AfterPrefix(tag[1..], x);
    AfterPrefix(tag[1..], y);
  }

  /** Equal identities name the same cluster, namespace, mount and key, reading an empty namespace as root. */
  lemma IdentityInjective(e: Endpoint, key: string, e': Endpoint, key': string)
    requires KeyIdentity(e, key).Some? && KeyIdentity(e, key) == KeyIdentity(e', key')
    ensures e.cluster == e'.cluster && Namespace(e) == Namespace(e') && e.mount == e'.mount && key == key'
  {
    var n, n' := Namespace(e), Namespace(e');
    var r3, r3' := e.mount + ("|key=" + key), e'.mount + ("|key=" + key');
    var r2, r2' := n + ("|mount=" + r3), n' + ("|mount=" + r3');
    var r1, r1' := e.cluster.value + ("|namespace=" + r2), e'.cluster.value + ("|namespace=" + r2');
    AfterPrefix("cluster=", r1);
    AfterPrefix("cluster=", r1');
    SplitAtLabel(e.cluster.value, "|namespace=", r2, e'.cluster.value, r2');
    SplitAtLabel(n, "|mount=", r3, n', r3');
    SplitAtLabel(e.mount, "|key=", key, e'.mount, key');
  }

  /** When a key has an identity and what that reads, for the root namespace and for another one. */
  lemma IdentitySays(cluster: string, namespace: string, mount: string, key: string)
    requires Plain(cluster) && Plain(mount) && Plain(key)
    ensures var s := "cluster=" + cluster + "|namespace=root|mount=" + mount + "|key=" + key;
            KeyIdentity(Endpoint(Some(cluster), "", mount), key) == if |s| <= 255 then Some(s) else None
    ensures var s := "cluster=" + cluster + "|namespace=" + namespace + "|mount=" + mount + "|key=" + key;
            namespace != "" && Plain(namespace) ==>
              KeyIdentity(Endpoint(Some(cluster), namespace, mount), key) == if |s| <= 255 then Some(s) else None
  {
    assert Joined(cluster, "root", mount, key) ==
           "cluster=" + cluster + "|namespace=root|mount=" + mount + "|key=" + key;
    assert Joined(cluster, namespace, mount, key) ==
           "cluster=" + cluster + "|namespace=" + namespace + "|mount=" + mount + "|key=" + key;
  }
}
