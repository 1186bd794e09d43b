/**
 The server's half of the blind-signature protocol (app/security/blind_signature.py): the
 full-domain hash, RSASP1 and RSAVP1 of sections 5.2.1 and 5.2.2 of RFC 8017 and the domain
 check in front of signing. SHA-256 is a parameter; a key is two primes and two exponents.
 */
module BlindSignature {
  import opened Common
  import opened NumberTheory

  type Hash = seq<Byte> -> seq<Byte>

  ghost predicate IsSha256(sha: Hash)
  {
    forall b: seq<Byte> :: |sha(b)| == 32
  }

  datatype Key = Key(p: nat, q: nat, e: nat, d: nat) {
    function N(): (n: nat) {
      p * q
    }

    ghost predicate Valid() {
      && Prime(p) && Prime(q) && p != q && e > 0 && d > 0
      && (e * d) % (p - 1) == 1 % (p - 1)
      && (e * d) % (q - 1) == 1 % (q - 1)
    }
  }

  lemma ProductAboveOne(p: nat, q: nat)
    requires p > 1 && q > 1
    ensures p * q > 1
  {
    assert p * q >= 2 * q;
  }

  lemma ModulusAboveOne(key: Key)
    requires key.Valid()
    ensures key.N() > 1
  {
    ProductAboveOne(key.p, key.q);
  }

  // ---------------------------------------------------------------- full-domain hash

  /** OS2IP, section 4.2 of RFC 8017: the integer a byte string denotes, most significant byte first. */
  function BigEndian(b: seq<Byte>): (x: nat)
  {
    if b == [] then 0 else BigEndian(b[..|b| - 1]) * 256 + b[|b| - 1]
  }

  /** `int.to_bytes(len, "big")`. */
  function ToBytes(x: nat, len: nat): (b: seq<Byte>)
    ensures |b| == len
  {
    if len == 0 then [] else ToBytes(x / 256, len - 1) + [x % 256]
  }

  function Expand(sha: Hash, seed: seq<Byte>, blocks: nat): (b: seq<Byte>)
  {
    if blocks == 0 then [] else Expand(sha, seed, blocks - 1) + sha(seed + ToBytes(blocks - 1, 4))
  }

  /** `hash_ballot`: eight counter blocks read as one integer and reduced. */
  function HashBallot(sha: Hash, ballot: seq<Byte>, n: nat): (m: nat)
    requires n > 0
    ensures m < n
  {
    BigEndian(Expand(sha, sha(ballot), 8)) % n
  }

  // ---------------------------------------------------------------- signing and verifying

  /** `blind_sign`: refuses every integer outside (0, n) or sharing a factor with n. */
  function BlindSign(key: Key, blinded: int): (s: Option<nat>)
  {
    if 0 < blinded < key.N() && Gcd(blinded, key.N()) == 1
    then Some(Pow(blinded, key.d) % key.N())
    else None
  }

  /** `verify_unblinded_signature`. */
  predicate VerifyUnblinded(sha: Hash, key: Key, ballot: seq<Byte>, signature: int)
  {
    && 0 < signature < key.N()
    && Pow(signature, key.e) % key.N() == HashBallot(sha, ballot, key.N())
  }

  // ---------------------------------------------------------------- the bytes of the hash

  lemma DivideTwice(x: nat, a: nat, b: nat)
    requires a > 0 && b > 0
    ensures a * b > 0 && x / (a * b) == (x / a) / b
  {
    var q, r := (x / a) / b, (x / a) % b;
    assert x / a == q * b + r;
    assert x == (x / a) * a + x % a;
    assert x == q * (a * b) + (r * a + x % a) by {
      assert (q * b + r) * a == q * (a * b) + r * a;
    }
    assert r * a + x % a < a * b by {
      assert (r + 1) * a <= b * a;
    }
    DivModUnique(x, a * b, q, r * a + x % a);
  }

  lemma {:induction false} PowerPositive(k: nat)
    ensures Pow(256, k) > 0
  {
    if k > 0 {
      PowerPositive(k - 1);
    }
  }

  lemma {:induction false} BigEndianBound(b: seq<Byte>)
    ensures BigEndian(b) < Pow(256, |b|)
  {
    if b != [] {
      BigEndianBound(b[..|b| - 1]);
    }
  }

  /** Byte `k`, counted from the most significant, of the integer that a byte string denotes. */
  lemma {:induction false} BigEndianByte(b: seq<Byte>, k: nat)
    requires k < |b|
    ensures Pow(256, |b| - 1 - k) > 0 && (BigEndian(b) / Pow(256, |b| - 1 - k)) % 256 == b[k]
  {
    var n := |b| - 1;
    var front, last := b[..n], b[n];
    PowerPositive(n - k);
    DivModUnique(BigEndian(b), 256, BigEndian(front), last);
    if k < n {
      BigEndianByte(front, k);
      DivideTwice(BigEndian(b), 256, Pow(256, n - 1 - k));
    } else {
      assert Pow(256, 0) == 1;
    }
  }

  lemma FourBytes(i: nat)
    requires i < 256
    ensures ToBytes(i, 4) == [0, 0, 0, i]
  {
    assert i / 256 == 0;
    assert ToBytes(0, 1) == [0] && ToBytes(0, 2) == [0, 0] && ToBytes(0, 3) == [0, 0, 0];
  }

  lemma BlockOf(k: nat, n: nat)
    requires k < 32 * n
    ensures k / 32 < n
    ensures k >= 32 * (n - 1) ==> k / 32 == n - 1 && k % 32 == k - 32 * (n - 1)
  {
  }

  /** Byte `k` of the expansion is byte `k % 32` of the digest of the seed with counter `k / 32`. */
  lemma {:induction false} ExpandByte(sha: Hash, seed: seq<Byte>, n: nat, k: nat)
    requires IsSha256(sha) && k < 32 * n <= 256
    ensures |Expand(sha, seed, n)| == 32 * n
    ensures k / 32 < 256 && Expand(sha, seed, n)[k] == sha(seed + [0, 0, 0, k / 32])[k % 32]
  {
    BlockOf(k, n);
    FourBytes(n - 1);
    ExpandSize(sha, seed, n - 1);
    if k < 32 * (n - 1) {
      ExpandByte(sha, seed, n - 1, k);
    }
  }

  lemma {:induction false} ExpandSize(sha: Hash, seed: seq<Byte>, n: nat)
    requires IsSha256(sha)
    ensures |Expand(sha, seed, n)| == 32 * n
  {
    if n > 0 {
      ExpandSize(sha, seed, n - 1);
    }
  }

  /**
   What the full-domain hash is, byte by byte: the integer whose 256 bytes are the digests of SHA-256 of the ballot
   followed by the counters 0 to 7, reduced by the modulus.
   */
  lemma HashBytes(sha: Hash, ballot: seq<Byte>, n: nat, k: nat)
    requires IsSha256(sha) && n > 0 && k < 256
    ensures Pow(256, 256) > 0 && Pow(256, 255 - k) > 0
    ensures HashBallot(sha, ballot, n) == HashBallot(sha, ballot, Pow(256, 256)) % n
    ensures k / 32 < 256 && (HashBallot(sha, ballot, Pow(256, 256)) / Pow(256, 255 - k)) % 256 ==
                            sha(sha(ballot) + [0, 0, 0, k / 32])[k % 32]
  {
    var expanded := Expand(sha, sha(ballot), 8);
    ExpandByte(sha, sha(ballot), 8, k);
    BigEndianBound(expanded);
    BigEndianByte(expanded, k);
    PowerPositive(256);
    DivModUnique(BigEndian(expanded), Pow(256, 256), 0, BigEndian(expanded));
  }

  predicate Collision(sha: Hash, a: seq<Byte>, b: seq<Byte>)
  {
    a != b && sha(a) == sha(b)
  }

  /** Before reduction, ballots with the same hash are the same, or they exhibit a collision of SHA-256. */
  lemma HashBinds(sha: Hash, a: seq<Byte>, b: seq<Byte>)
    requires IsSha256(sha)
    requires Pow(256, 256) > 0 && HashBallot(sha, a, Pow(256, 256)) == HashBallot(sha, b, Pow(256, 256))
    ensures a == b || Collision(sha, a, b) || Collision(sha, sha(a) + [0, 0, 0, 0], sha(b) + [0, 0, 0, 0])
  {
    var x, y := sha(sha(a) + [0, 0, 0, 0]), sha(sha(b) + [0, 0, 0, 0]);
    forall k | 0 <= k < 32 ensures x[k] == y[k] {
      HashBytes(sha, a, 1, k);
      HashBytes(sha, b, 1, k);
      BlockOf(k, 1);
    }
    assert x == y;
    assert (sha(a) + [0, 0, 0, 0])[..32] == sha(a) && (sha(b) + [0, 0, 0, 0])[..32] == sha(b);
  }

  // ---------------------------------------------------------------- the protocol's arithmetic

  /** What the browser sends for hash `m` and blinding factor `r`. */
  function Blinded(key: Key, m: nat, r: nat): (b: int)
    requires key.N() > 0
  {
    (m * (Pow(r, key.e) % key.N())) % key.N()
  }

  lemma BlindedResidue(key: Key, m: nat, r: nat)
    requires key.N() > 0
    ensures Blinded(key, m, r) % key.N() == (m * Pow(r, key.e)) % key.N()
    ensures 0 <= Blinded(key, m, r) < key.N()
  {
    var n := key.N();
    DivModUnique(Pow(r, key.e) % n, n, 0, Pow(r, key.e) % n);
    MulCongruent(m, m, Pow(r, key.e) % n, Pow(r, key.e), n);
    var b := Blinded(key, m, r);
    DivModUnique(b, n, 0, b);
  }

  /** Signing and then raising to the public exponent, or the reverse, is the identity on residues. */
  lemma SignThenOpen(key: Key, a: int)
    requires key.Valid()
    ensures key.N() > 1
    ensures Pow(Pow(a, key.d), key.e) % key.N() == a % key.N()
    ensures Pow(Pow(a, key.e), key.d) % key.N() == a % key.N()
  {
    ModulusAboveOne(key);
    var k := key.e * key.d;
    assert k > 0;
    RsaIdentity(a, key.p, key.q, k);
    PowMul(a, key.d, key.e);
    PowMul(a, key.e, key.d);
    assert key.d * key.e == k;
  }

  /**
   RSAVP1 decides: under a valid key exactly one signature verifies for a ballot, the private power of its hash, and
   it does so when it is not zero.
   */
  lemma VerifiesIff(sha: Hash, key: Key, ballot: seq<Byte>, signature: int)
    requires key.Valid() && key.N() > 0
    ensures VerifyUnblinded(sha, key, ballot, signature) <==>
              && 0 < signature < key.N()
              && signature == Pow(HashBallot(sha, ballot, key.N()), key.d) % key.N()
  {
    var n, m := key.N(), HashBallot(sha, ballot, key.N());
    SignThenOpen(key, m);
    DivModUnique(m, n, 0, m);
    if 0 < signature < n {
      SignThenOpen(key, signature);
      DivModUnique(signature, n, 0, signature);
      if Pow(signature, key.e) % n == m {
        PowCongruent(Pow(signature, key.e), m, key.d, n);
      }
      if signature == Pow(m, key.d) % n {
        PowCongruent(signature, Pow(m, key.d), key.e, n);
      }
    }
  }

  /**
   RSASP1 behind its domain check: exactly the invertible integers in (0, n) are signed, and the answer is the one
   integer in (0, n) whose public power is what was asked.
   */
  lemma SignAnswers(key: Key, blinded: int)
    requires key.Valid() && key.N() > 0
    ensures BlindSign(key, blinded).Some? <==> 0 < blinded < key.N() && Unit(blinded, key.N())
    ensures BlindSign(key, blinded).Some? ==>
              var s := BlindSign(key, blinded).value; 0 < s < key.N() && Pow(s, key.e) % key.N() == blinded
  {
    ModulusAboveOne(key);
    var n := key.N();
    if 0 < blinded < n {
      GcdOneIffUnit(blinded, n);
      if Unit(blinded, n) {
        var s := Pow(blinded, key.d) % n;
        UnitPower(blinded, key.d, n);
        UnitNotZero(Pow(blinded, key.d), n);
        DivModUnique(s, n, 0, s);
        PowCongruent(s, Pow(blinded, key.d), key.e, n);
        SignThenOpen(key, blinded);
        DivModUnique(blinded, n, 0, blinded);
      }
    }
  }

  lemma UnitNotZero(x: int, n: int)
    requires n > 1 && Unit(x, n)
    ensures x % n != 0
  {
    var y: int :| IsInverse(x, y, n);
    if x % n == 0 {
      DividesMul(x, y, n);
      assert y * x == x * y;
      DivModUnique(1, n, 0, 1);
      assert false;
    }
  }

  /** The server signs exactly when both the ballot's hash and the blinding factor are units. */
  lemma SignsIffUnits(key: Key, m: nat, r: nat)
    requires key.Valid()
    ensures key.N() > 0
    ensures BlindSign(key, Blinded(key, m, r)).Some? <==> Gcd(m, key.N()) == 1 && Gcd(r, key.N()) == 1
  {
    ModulusAboveOne(key);
    var n := key.N();
    var b := Blinded(key, m, r);
    BlindedResidue(key, m, r);
    GcdOneIffUnit(b, n);
    GcdOneIffUnit(m, n);
    GcdOneIffUnit(r, n);
    UnitProduct(m, Pow(r, key.e), n);
    UnitPower(r, key.e, n);
    DivModUnique(b, n, 0, b);
    if Unit(b, n) {
      UnitOfCongruent(b, m * Pow(r, key.e), n);
      UnitNotZero(b, n);
    }
    if Unit(m, n) && Unit(r, n) {
      UnitOfCongruent(m * Pow(r, key.e), b, n);
      UnitNotZero(b, n);
    }
  }

  /** Signing a blinded value carries the blinding factor out of the power. */
  lemma BlindedPower(key: Key, m: nat, r: nat)
    requires key.Valid() && key.N() > 0
    ensures Pow(Blinded(key, m, r), key.d) % key.N() == (Pow(m, key.d) * r) % key.N()
  {
    var n := key.N();
    var re, md := Pow(r, key.e), Pow(m, key.d);
    BlindedResidue(key, m, r);
    PowCongruent(Blinded(key, m, r), m * re, key.d, n);
    PowOfProduct(m, re, key.d);
    SignThenOpen(key, r);
    MulCongruent(md, md, Pow(re, key.d), r, n);
  }

  lemma CancelBlinding(md: int, r: int, s: int, rInv: int, n: int)
    requires n > 0 && s % n == (md * r) % n && IsInverse(r, rInv, n)
    ensures (s * rInv) % n == md % n
  {
    MulCongruent(s, md * r, rInv, rInv, n);
    assert (md * r) * rInv == md * (r * rInv);
    MulCongruent(md, md, r * rInv, 1, n);
  }

  /** The blinding factor cancels: the unblinded signature is the plain signature of the hash. */
  lemma UnblindIsPlainSignature(key: Key, m: nat, r: nat, s: int, rInv: int)
    requires key.Valid() && key.N() > 0
    requires s % key.N() == Pow(Blinded(key, m, r), key.d) % key.N()
    requires IsInverse(r, rInv, key.N())
    ensures (s * rInv) % key.N() == Pow(m, key.d) % key.N()
  {
    BlindedPower(key, m, r);
    CancelBlinding(Pow(m, key.d), r, s, rInv, key.N());
  }

  /**
   End to end. Whatever blinding factor the browser drew, if the server signs the blinded hash
   then the factor is invertible and the unblinded signature is in range and verifies for
   exactly that ballot. `rInv` is what the browser's inverse routine returns: a residue whose
   product with `r` is the greatest common divisor.
   */
  lemma BlindRoundTrip(sha: Hash, key: Key, ballot: seq<Byte>, r: nat, rInv: int)
    requires key.Valid() && key.N() > 0
    requires (r * rInv) % key.N() == Gcd(r, key.N()) % key.N()
    ensures var n := key.N();
            var signed := BlindSign(key, Blinded(key, HashBallot(sha, ballot, n), r));
            signed.Some? ==>
              && Gcd(r, n) == 1
              && 0 < (signed.value * rInv) % n < n
              && VerifyUnblinded(sha, key, ballot, (signed.value * rInv) % n)
  {
    ModulusAboveOne(key);
    var n := key.N();
    var m := HashBallot(sha, ballot, n);
    var b := Blinded(key, m, r);
    var signed := BlindSign(key, b);
    SignsIffUnits(key, m, r);
    if signed.Some? {
      assert IsInverse(r, rInv, n);
      var s := signed.value;
      DivModUnique(s, n, 0, s);
      UnblindIsPlainSignature(key, m, r, s, rInv);
      var sig := (s * rInv) % n;
      var md := Pow(m, key.d);
      DivModUnique(sig, n, 0, sig);
      // in range: a power of a unit is a unit, hence not zero
      GcdOneIffUnit(m, n);
      UnitPower(m, key.d, n);
      UnitNotZero(md, n);
      // verifies: the public exponent undoes the private one
      PowCongruent(sig, md, key.e, n);
      SignThenOpen(key, m);
      DivModUnique(m, n, 0, m);
    }
  }

  // ---------------------------------------------------------------- blindness

  /** A blinding factor that explains what the server saw as a ballot with hash `m`. */
  predicate Explains(key: Key, m: nat, seen: int, r: nat)
    requires key.N() > 0
  {
    r < key.N() && Blinded(key, m, r) == seen
  }

  lemma ExplanationUnique(key: Key, m: nat, seen: int, r: nat, r': nat)
    requires key.Valid() && key.N() > 0 && Gcd(m, key.N()) == 1
    requires Explains(key, m, seen, r) && Explains(key, m, seen, r')
    ensures r == r'
  {
    var n := key.N();
    BlindedResidue(key, m, r);
    BlindedResidue(key, m, r');
    GcdOneIffUnit(m, n);
    CancelUnit(m, Pow(r, key.e), Pow(r', key.e), n);
    PowCongruent(Pow(r, key.e), Pow(r', key.e), key.d, n);
    SignThenOpen(key, r);
    SignThenOpen(key, r');
    DivModUnique(r, n, 0, r);
    DivModUnique(r', n, 0, r');
  }

  /** Multiplying back by the hash recovers what the server saw. */
  lemma ReblindIsSeen(n: int, m: int, x: int, seen: int, re: int)
    requires n > 0 && IsInverse(m, x, n) && re % n == (seen * x) % n
    ensures (m * re) % n == seen % n
  {
    MulCongruent(m, m, re, seen * x, n);
    assert m * (seen * x) == seen * (m * x) by {
      assert m * (seen * x) == (m * seen) * x == (seen * m) * x;
    }
    MulCongruent(seen, seen, m * x, 1, n);
  }

  lemma ExplanationExists(key: Key, m: nat, seen: int) returns (r: nat)
    requires key.Valid() && key.N() > 0 && Gcd(m, key.N()) == 1 && 0 <= seen < key.N()
    ensures Explains(key, m, seen, r)
  {
    var n := key.N();
    GcdOneIffUnit(m, n);
    var x: int :| IsInverse(m, x, n);
    var t := seen * x;
    r := Pow(t, key.d) % n;
    DivModUnique(r, n, 0, r);
    PowCongruent(r, Pow(t, key.d), key.e, n);
    SignThenOpen(key, t);
    ReblindIsSeen(n, m, x, seen, Pow(r, key.e));
    BlindedResidue(key, m, r);
    var b := Blinded(key, m, r);
    DivModUnique(b, n, 0, b);
    DivModUnique(seen, n, 0, seen);
  }

  /**
   Blindness. For every value the server agreed to sign and every ballot whose hash is a unit,
   exactly one blinding factor modulo n produces that value from that ballot: the authorisation
   step is equally consistent with every candidate choice.
   */
  lemma Blindness(sha: Hash, key: Key, ballot: seq<Byte>, seen: int)
    requires key.Valid() && key.N() > 0
    requires BlindSign(key, seen).Some?
    requires Gcd(HashBallot(sha, ballot, key.N()), key.N()) == 1
    ensures exists r: nat ::
              && Explains(key, HashBallot(sha, ballot, key.N()), seen, r)
              && Gcd(r, key.N()) == 1
              && forall r': nat :: Explains(key, HashBallot(sha, ballot, key.N()), seen, r') ==> r' == r
  {
    var m := HashBallot(sha, ballot, key.N());
    var r := ExplanationExists(key, m, seen);
    SignsIffUnits(key, m, r);
    forall r': nat | Explains(key, m, seen, r') ensures r' == r {
      ExplanationUnique(key, m, seen, r, r');
    }
  }
}
