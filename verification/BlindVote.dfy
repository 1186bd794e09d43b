/**
 The browser's half of the protocol (app/static/js/blind_vote.js), loop by loop: modular
 exponentiation and inverse over BigInt, the hexadecimal codecs, the full-domain hash and the
 blind / sign / unblind exchange that uses them.
 */
module BlindVote {
  import opened Common
  import opened NumberTheory
  import opened Hex
  import Server = BlindSignature

  // ---------------------------------------------------------------- BigInt operators

  /** BigInt `%`: the remainder takes the sign of the dividend. */
  function Rem(a: int, m: int): (r: int)
    requires m > 0
  {
    if a >= 0 then a % m else -((-a) % m)
  }

  /** The idiom `((a % m) + m) % m` yields the least non-negative residue, whatever the sign of `a`. */
  lemma NormalisedRem(a: int, m: int)
    requires m > 0
    ensures Rem(Rem(a, m) + m, m) == a % m
  {
    if a >= 0 {
      ModAddMultiple(a % m, 1, m);
      DivModUnique(a % m, m, 0, a % m);
    } else {
      var t := (-a) % m;
      ModAddMultiple(-t, 1, m);
      assert -t == a + ((-a) / m) * m;
      ModAddMultiple(a, (-a) / m, m);
    }
  }

  /** That idiom. */
  function Residue(a: int, m: int): (r: int)
    requires m > 0
    ensures r == a % m
  {
    NormalisedRem(a, m);
    Rem(Rem(a, m) + m, m)
  }

  // ---------------------------------------------------------------- modPow

  /** Halving the exponent and squaring the base keeps the power. */
  lemma SquareStep(b: int, e: nat, m: int)
    requires m > 0
    ensures Pow(b, e) % m == ((if e % 2 == 1 then b else 1) * Pow((b * b) % m, e / 2)) % m
  {
    var h := e / 2;
    assert Pow(b, 2) == b * b by {
      assert Pow(b, 1) == b;
    }
    PowMul(b, 2, h);
    var sq := (b * b) % m;
    DivModUnique(sq, m, 0, sq);
    PowCongruent(b * b, sq, h, m);
    if e % 2 == 1 {
      assert e == 1 + 2 * h;
      assert Pow(b, e) == b * Pow(b, 2 * h);
      MulCongruent(b, b, Pow(b * b, h), Pow(sq, h), m);
    } else {
      assert e == 2 * h;
      assert 1 * Pow(sq, h) == Pow(sq, h);
    }
  }

  lemma AccumulateStep(acc: int, b: int, f: int, t: int, m: int)
    requires m > 0 && b % m == (f * t) % m
    ensures (acc * b) % m == (((acc * f) % m) * t) % m
  {
    MulCongruent(acc, acc, b, f * t, m);
    assert acc * (f * t) == (acc * f) * t;
    MulModLeft(acc * f, t, m);
  }

  /**
   `modPow`: square and multiply. It returns base^exp mod m for every base and every
   non-negative exponent except one corner: exponent zero modulo one, where the loop never runs
   and one is returned instead of zero. A negative exponent also returns one.
   */
  method ModPow(base: int, exp: int, m: int) returns (result: int)
    requires m > 0
    ensures exp <= 0 ==> result == 1
    ensures exp >= 0 ==> (result == Pow(base, exp) % m <==> !(exp == 0 && m == 1))
  {
    if exp < 0 {
      // the loop guard fails at once
      return 1;
    }
    var b := Residue(base, m);
    DivModUnique(b, m, 0, b);
    PowCongruent(base, b, exp, m);
    result := 1;
    var e := exp;
    assert 1 * Pow(b, e) == Pow(b, e);
    while e > 0
      invariant 0 <= e <= exp && (e == 0 ==> exp == 0 || result < m)
      invariant 0 <= b < m && 0 <= result
      invariant result < m || (m == 1 && result == 1)
      invariant exp == e ==> result == 1
      invariant (result * Pow(b, e)) % m == Pow(base, exp) % m
    {
      SquareStep(b, e, m);
      ghost var f := if e % 2 == 1 then b else 1;
      AccumulateStep(result, Pow(b, e), f, Pow((b * b) % m, e / 2), m);
      if e % 2 == 1 {
        result := (result * b) % m;
      } else {
        assert result * 1 == result;
        MulModLeft(result, Pow((b * b) % m, e / 2), m);
      }
      e := e / 2;
      b := (b * b) % m;
    }
    assert result * Pow(b, 0) == result;
    if result < m {
      DivModUnique(result, m, 0, result);
    }
    if exp == 0 && m == 1 {
      assert Pow(base, 0) % 1 == 0;
    }
  }

  // ---------------------------------------------------------------- modInverse

  ghost predicate Combines(a: int, m: int, x: int, s: int, t: int)
  {
    x == a * s + m * t
  }

  lemma CombinationStep(a: int, m: int, q: int, x: int, s: int, t: int, y: int, s': int, t': int)
    requires Combines(a, m, x, s, t) && Combines(a, m, y, s', t')
    ensures Combines(a, m, x - q * y, s - q * s', t - q * t')
  {
    assert q * (a * s' + m * t') == a * (q * s') + m * (q * t');
    assert a * (s - q * s') == a * s - a * (q * s');
    assert m * (t - q * t') == m * t - m * (q * t');
  }

  function Abs(x: int): (n: nat)
  {
    if x < 0 then -x else x
  }

  /** BigInt `/`: the quotient is truncated towards zero. */
  function Quot(x: int, y: int): (q: int)
    requires y != 0
  {
    if (x < 0) == (y < 0) then Abs(x) / Abs(y) else -(Abs(x) / Abs(y))
  }

  /** The Euclidean algorithm makes an odd number of divisions. */
  predicate OddDivisions(u: nat, v: nat)
    decreases v
  {
    v != 0 && !OddDivisions(v, u % v)
  }

  ghost predicate Signed(x: int, negative: bool, u: nat)
  {
    (negative ==> x == 0 - u) && (!negative ==> x == u)
  }

  /** Truncating division carries the signs along: magnitudes follow Euclid and the two signs change places. */
  lemma RemainderStep(x: int, nx: bool, u: nat, y: int, ny: bool, v: nat)
    requires Signed(x, nx, u) && Signed(y, ny, v) && v > 0
    ensures y != 0 && Signed(x - Quot(x, y) * y, nx, u % v)
  {
    var q := u / v;
    assert u == q * v + u % v;
    QuotOfSigned(x, nx, u, y, ny, v);
    ProductOfSigned(q, v);
  }

  lemma QuotOfSigned(x: int, nx: bool, u: nat, y: int, ny: bool, v: nat)
    requires Signed(x, nx, u) && Signed(y, ny, v) && v > 0
    ensures y != 0 && Quot(x, y) == if nx == ny then u / v else -(u / v)
  {
    assert Abs(x) == u && Abs(y) == v;
    assert u == 0 ==> u / v == 0;
  }

  lemma ProductOfSigned(q: int, v: int)
    ensures (-q) * v == -(q * v) && q * (-v) == -(q * v) && (-q) * (-v) == q * v
  {
  }

  lemma EuclidStep(u: nat, v: nat)
    requires v > 0
    ensures Gcd(u, v) == Gcd(v, u % v) && OddDivisions(u, v) == !OddDivisions(v, u % v)
  {
  }

  /** One turn of the loop: the next remainder and its coefficient, still a combination of `a` and `m`. */
  method NextRemainder(oldR: int, r: int, oldS: int, s: int, ghost a: int, ghost m: nat, ghost oldT: int, ghost t: int,
                       ghost oldNegative: bool, ghost u: nat, ghost negative: bool, ghost v: nat)
    returns (r': int, s': int, ghost t': int)
    requires Signed(oldR, oldNegative, u) && Signed(r, negative, v) && r != 0
    requires Combines(a, m, oldR, oldS, oldT) && Combines(a, m, r, s, t)
    ensures v > 0 && Signed(r', oldNegative, u % v) && Combines(a, m, r', s', t')
  {
    var q := Quot(oldR, r);
    RemainderStep(oldR, oldNegative, u, r, negative, v);
    CombinationStep(a, m, q, oldR, oldS, oldT, r, s, t);
    r', s', t' := oldR - q * r, oldS - q * s, oldT - q * t;
  }

  /**
   `modInverse`: the extended Euclidean loop. The result is the least non-negative residue whose product with `a`
   is the greatest common divisor, up to a sign that only a negative `a` can bring in; hence it is the inverse
   exactly when that divisor is one and, for a negative `a`, the number of divisions is odd (modulo one and two the
   sign does not matter, and modulo one nothing does).
   */
  method ModInverse(a: int, m: nat) returns (inverse: int)
    requires m > 0
    ensures 0 <= inverse < m
    ensures a >= 0 ==> (a * inverse) % m == Gcd(a, m) % m
    ensures IsInverse(a, inverse, m) <==>
              m == 1 || (Gcd(Abs(a), m) == 1 && (a >= 0 || m == 2 || OddDivisions(Abs(a), m)))
  {
    var oldR, r: int := a, m;
    var oldS, s := 1, 0;
    ghost var oldT, t := 0, 1;
    ghost var u: nat, v: nat := Abs(a), m;
    ghost var oldNegative, negative := a < 0, false;
    while r != 0
      invariant Signed(oldR, oldNegative, u) && Signed(r, negative, v)
      invariant Combines(a, m, oldR, oldS, oldT) && Combines(a, m, r, s, t)
      invariant Gcd(u, v) == Gcd(Abs(a), m)
      invariant a >= 0 ==> !oldNegative && !negative
      invariant a < 0 ==> oldNegative == !negative && (oldNegative <==> OddDivisions(u, v) == OddDivisions(Abs(a), m))
      decreases v
    {
      var r', s', t' := NextRemainder(oldR, r, oldS, s, a, m, oldT, t, oldNegative, u, negative, v);
      EuclidStep(u, v);
      oldR, r, oldS, s, oldT, t := r, r', s, s', t, t';
      u, v, oldNegative, negative := v, u % v, negative, oldNegative;
    }
    inverse := Residue(oldS, m);
    LastRemainder(a, m, oldS, oldT, inverse, oldR, oldNegative, u);
  }

  /** What the last remainder and its coefficient say about the inverse. */
  lemma LastRemainder(a: int, m: nat, s: int, t: int, x: int, g: int, negative: bool, u: nat)
    requires m > 0 && Combines(a, m, g, s, t) && x == s % m && Signed(g, negative, u) && u == Gcd(Abs(a), m)
    ensures !negative ==> (a * x) % m == u % m
    ensures IsInverse(a, x, m) <==> m == 1 || (u == 1 && (!negative || m == 2))
  {
    DivModUnique(x, m, 0, x);
    Bezouted(a, m, s, t, x, g);
    InverseIffSign(a, x, m, if negative then -1 else 1);
  }

  /** A negative argument for which the result is not the inverse although there is one. */
  lemma NegativeArgument()
    ensures Gcd(Abs(-1), 5) == 1 && !OddDivisions(Abs(-1), 5)
    ensures forall x: int :: x % 5 == 4 ==> IsInverse(-1, x, 5)
  {
    assert Gcd(1, 5) == Gcd(5, 1) == Gcd(1, 0);
    assert OddDivisions(5, 1) == !OddDivisions(1, 0);
  }

  /** A combination of `a` and the modulus fixes the product of `a` with the residue of its coefficient. */
  lemma Bezouted(a: int, m: nat, s: int, t: int, x: int, g: int)
    requires m > 0 && Combines(a, m, g, s, t) && x % m == s % m
    ensures (a * x) % m == g % m
  {
    MulCongruent(a, a, x, s, m);
    ModAddMultiple(a * s, t, m);
    assert t * m == m * t;
  }

  lemma InverseIffSign(a: int, x: int, m: nat, sign: int)
    requires m > 0 && sign in {1, -1} && (a * x) % m == (sign * Gcd(Abs(a), m)) % m
    ensures IsInverse(a, x, m) <==> m == 1 || (Gcd(Abs(a), m) == 1 && (sign == 1 || m == 2))
  {
    var g := Gcd(Abs(a), m);
    if m > 1 && IsInverse(a, x, m) {
      UnitBySign(a, x, m);
      GcdOneIffUnit(Abs(a), m);
    }
    if g == 1 && sign == -1 && m > 1 {
      DivModUnique(-1, m, -1, m - 1);
      DivModUnique(1, m, 0, 1);
    }
  }

  lemma UnitBySign(a: int, x: int, m: nat)
    requires m > 0 && IsInverse(a, x, m)
    ensures Unit(Abs(a), m)
  {
    assert a < 0 ==> Abs(a) * -x == a * x;
    assert IsInverse(Abs(a), if a < 0 then -x else x, m);
  }

  // ---------------------------------------------------------------- hexadecimal

  predicate AllHex(s: string)
  {
    forall i :: 0 <= i < |s| ==> IsHex(s[i])
  }

  /** What `BigInt('0x' + s)` and `int(s, 16)` read. */
  function HexNumber(s: string): (x: nat)
    requires AllHex(s)
  {
    if s == "" then 0 else HexNumber(s[..|s| - 1]) * 16 + HexValue(s[|s| - 1])
  }

  /** `n.toString(16)`. */
  function ToHex(n: nat): (s: string)
    ensures |s| > 0 && AllHex(s) && HexNumber(s) == n
  {
    if n < 16 then
      var s := [HexDigit(n)];
      assert s[..0] == "";
      s
    else
      var front, last := ToHex(n / 16), HexDigit(n % 16);
      assert (front + [last])[..|front|] == front;
      front + [last]
  }

  /** `bigIntToHex`: an even number of digits that read back as the same integer. */
  function BigIntToHex(n: nat): (s: string)
    ensures AllHex(s) && |s| % 2 == 0 && HexNumber(s) == n
  {
    var h := ToHex(n);
    if |h| % 2 == 1 then LeadingZero(h); "0" + h else h
  }

  lemma {:induction false} LeadingZero(h: string)
    requires AllHex(h)
    ensures AllHex("0" + h) && HexNumber("0" + h) == HexNumber(h)
  {
    var z := "0" + h;
    assert forall i :: 0 <= i < |z| ==> IsHex(z[i]);
    if h == "" {
      assert z[..0] == "";
    } else {
      LeadingZero(h[..|h| - 1]);
      assert z[..|z| - 1] == "0" + h[..|h| - 1];
    }
  }

  /** `b.toString(16).padStart(2, '0')`. */
  function BytePair(b: Byte): (s: string)
    ensures s == [HexDigit(b / 16), HexDigit(b % 16)]
  {
    if b < 16 then "0" + ToHex(b) else assert ToHex(b / 16) == [HexDigit(b / 16)]; ToHex(b)
  }

  function BytesToHex(bytes: seq<Byte>): (s: string)
    ensures AllHex(s) && |s| == 2 * |bytes|
  {
    if bytes == [] then "" else BytesToHex(bytes[..|bytes| - 1]) + BytePair(bytes[|bytes| - 1])
  }

  lemma HexAppendPair(f: string, hi: nat, lo: nat)
    requires AllHex(f) && hi < 16 && lo < 16
    ensures AllHex(f + [HexDigit(hi), HexDigit(lo)])
    ensures HexNumber(f + [HexDigit(hi), HexDigit(lo)]) == HexNumber(f) * 256 + hi * 16 + lo
  {
    var g := f + [HexDigit(hi)];
    var s := f + [HexDigit(hi), HexDigit(lo)];
    assert g[..|g| - 1] == f && s[..|s| - 1] == g;
  }

  lemma {:induction false} HexOfBytesIsBigEndian(bytes: seq<Byte>)
    ensures HexNumber(BytesToHex(bytes)) == Server.BigEndian(bytes)
  {
    if bytes != [] {
      var front, last := bytes[..|bytes| - 1], bytes[|bytes| - 1];
      HexOfBytesIsBigEndian(front);
      HexAppendPair(BytesToHex(front), last / 16, last % 16);
    }
  }

  /** `bytesToBigInt`: growing a hex string byte by byte and parsing it is big-endian decoding. */
  method BytesToBigInt(bytes: seq<Byte>) returns (x: nat)
    ensures x == Server.BigEndian(bytes)
  {
    var hex := "";
    for i := 0 to |bytes|
      invariant hex == BytesToHex(bytes[..i])
    {
      assert bytes[..i + 1][..i] == bytes[..i];
      hex := hex + BytePair(bytes[i]);
    }
    assert bytes[..|bytes|] == bytes;
    HexOfBytesIsBigEndian(bytes);
    assert HexNumber("0") == 0 by {
      assert "0"[..0] == "";
    }
    x := HexNumber(if hex == "" then "0" else hex);
  }

  /** White space that `parseInt` skips. */
  predicate IsJsSpace(c: char)
  {
    || c == ' ' || '\t' <= c <= '\r' || c == '\U{00A0}' || c == '\U{FEFF}' || c == '\U{2028}' || c == '\U{2029}'
    || c == '\U{1680}' || '\U{2000}' <= c <= '\U{200A}' || c == '\U{202F}' || c == '\U{205F}' || c == '\U{3000}'
  }

  /**
   `parseInt(xy, 16)` stored into a byte: two digits; one digit before something else, or after white space or a
   sign, the minus wrapping round; otherwise not a number, which is stored as zero.
   */
  function ParsePair(x: char, y: char): (b: Byte)
    ensures IsHex(x) && IsHex(y) ==> b == HexValue(x) * 16 + HexValue(y)
    ensures !IsHex(x) && !IsHex(y) ==> b == 0
  {
    if IsHex(x) then (if IsHex(y) then HexValue(x) * 16 + HexValue(y) else HexValue(x))
    else if !IsHex(y) then 0
    else if IsJsSpace(x) || x == '+' then HexValue(y)
    else if x == '-' then (256 - HexValue(y)) % 256
    else 0
  }

  /** `hexToBytes`: one byte per pair. The array has no room for the odd character at the end, which is dropped. */
  method HexToBytes(hex: string) returns (bytes: array<Byte>)
    ensures fresh(bytes)
    ensures bytes.Length == |hex| / 2
    ensures forall i :: 0 <= i < bytes.Length ==> bytes[i] == ParsePair(hex[2 * i], hex[2 * i + 1])
    ensures forall plain: seq<Byte> :: hex == BytesToHex(plain) ==> bytes[..] == plain
  {
    bytes := new Byte[|hex| / 2];
    var i := 0;
    while i < |hex|
      invariant 0 <= i <= |hex| + 1 && i % 2 == 0
      invariant forall j :: 0 <= j < i / 2 && j < bytes.Length ==> bytes[j] == ParsePair(hex[2 * j], hex[2 * j + 1])
    {
      if i / 2 < bytes.Length {
        bytes[i / 2] := ParsePair(hex[i], hex[i + 1]);
      }
      i := i + 2;
    }
    forall plain: seq<Byte> | hex == BytesToHex(plain) ensures bytes[..] == plain {
      PairsOfPlain(plain, bytes[..]);
    }
  }

  lemma PairsOfPlain(plain: seq<Byte>, bytes: seq<Byte>)
    requires |bytes| == |plain|
    requires var hex := BytesToHex(plain);
             forall i :: 0 <= i < |bytes| ==> bytes[i] == ParsePair(hex[2 * i], hex[2 * i + 1])
    ensures bytes == plain
  {
    forall k | 0 <= k < |plain| ensures bytes[k] == plain[k] {
      PairOfPlain(plain, k);
    }
  }

  lemma PairOfPlain(plain: seq<Byte>, k: nat)
    requires k < |plain|
    ensures ParsePair(BytesToHex(plain)[2 * k], BytesToHex(plain)[2 * k + 1]) == plain[k]
  {
    var hex := BytesToHex(plain);
    assert IsHex(hex[2 * k]) && IsHex(hex[2 * k + 1]);
    HexRoundTrip(plain, k);
  }

  lemma {:induction false} HexRoundTrip(bytes: seq<Byte>, i: nat)
    requires i < |bytes|
    ensures bytes[i] == HexValue(BytesToHex(bytes)[2 * i]) * 16 + HexValue(BytesToHex(bytes)[2 * i + 1])
  {
    if i < |bytes| - 1 {
      HexRoundTrip(bytes[..|bytes| - 1], i);
    }
  }

  // ---------------------------------------------------------------- full-domain hash

  /** The four shift-and-mask stores of the counter are its four-byte big-endian encoding. */
  lemma CounterBytes(i: nat)
    requires i < 0x1_0000_0000
    ensures Server.ToBytes(i, 4) ==
            [(i / 0x100_0000) % 256, (i / 0x1_0000) % 256, (i / 0x100) % 256, i % 256]
  {
    var a, b, c := i / 256, i / 256 / 256, i / 256 / 256 / 256;
    assert b == i / 0x1_0000 && c == i / 0x100_0000;
    assert Server.ToBytes(c, 1) == [c % 256];
    assert Server.ToBytes(b, 2) == [c % 256, b % 256];
    assert Server.ToBytes(a, 3) == [c % 256, b % 256, a % 256];
  }

  /** One block of the expansion: the digest of the seed with the counter stored behind it byte by byte. */
  method CounterBlock(sha: Server.Hash, seed: seq<Byte>, i: nat) returns (digest: seq<Byte>)
    requires i < 8
    ensures digest == sha(seed + Server.ToBytes(i, 4))
  {
    var data := new Byte[|seed| + 4](k requires 0 <= k < |seed| + 4 => if k < |seed| then seed[k] else 0);
    data[|seed|] := (i / 0x100_0000) % 256;
    data[|seed| + 1] := (i / 0x1_0000) % 256;
    data[|seed| + 2] := (i / 0x100) % 256;
    data[|seed| + 3] := i % 256;
    CounterBytes(i);
    assert data[..] == seed + Server.ToBytes(i, 4);
    digest := sha(data[..]);
  }

  /** `buffer.set(block, at)`, when everything before `at` has been written. */
  method Place(buffer: array<Byte>, at: nat, block: seq<Byte>)
    requires at + |block| <= buffer.Length
    modifies buffer
    ensures buffer[..at + |block|] == old(buffer[..at]) + block
  {
    forall k | 0 <= k < |block| {
      buffer[at + k] := block[k];
    }
    assert buffer[..at] == old(buffer[..at]);
    assert buffer[at..at + |block|] == block;
  }

  lemma ExpandSnoc(sha: Server.Hash, seed: seq<Byte>, i: nat, block: seq<Byte>)
    requires block == sha(seed + Server.ToBytes(i, 4))
    ensures Server.Expand(sha, seed, i + 1) == Server.Expand(sha, seed, i) + block
  {
  }

  /** The blocks, written at offsets of 32 into one buffer, are the server's expansion. */
  method ExpandSeed(sha: Server.Hash, seed: seq<Byte>) returns (expanded: array<Byte>)
    requires Server.IsSha256(sha)
    ensures fresh(expanded) && expanded[..] == Server.Expand(sha, seed, 8)
  {
    var blocks: seq<seq<Byte>> := [];
    for i := 0 to 8
      invariant |blocks| == i
      invariant forall j: nat :: j < i ==> blocks[j] == sha(seed + Server.ToBytes(j, 4))
    {
      var block := CounterBlock(sha, seed, i);
      blocks := blocks + [block];
    }
    expanded := new Byte[256];
    for i := 0 to 8
      invariant expanded[..32 * i] == Server.Expand(sha, seed, i)
    {
      Place(expanded, 32 * i, blocks[i]);
      ExpandSnoc(sha, seed, i, blocks[i]);
    }
    assert expanded[..] == expanded[..256];
  }

  /**
   `hashBallot`: eight digests of seed plus counter, joined and parsed through hexadecimal. The result is the
   server's full-domain hash for every ballot and modulus.
   */
  method HashBallot(sha: Server.Hash, ballot: seq<Byte>, n: nat) returns (m: nat)
    requires n > 0 && Server.IsSha256(sha)
    ensures m == Server.HashBallot(sha, ballot, n)
  {
    var seed := sha(ballot);
    var expanded := ExpandSeed(sha, seed);
    var x := BytesToBigInt(expanded[..]);
    m := x % n;
  }

  // ---------------------------------------------------------------- the exchange

  /**
   Steps 4 to 8 of `castBlindVote` against the server's signing function: hash, blind, ask for a
   signature, unblind. A signature comes back exactly when the hash and the blinding factor are
   units, and whatever comes back verifies for this ballot under this key.
   */
  method CastBlindVote(sha: Server.Hash, key: Server.Key, ballot: seq<Byte>, r: nat)
    returns (signature: Option<int>)
    requires Server.IsSha256(sha) && key.Valid() && key.N() > 0
    ensures signature.Some? <==>
              Gcd(Server.HashBallot(sha, ballot, key.N()), key.N()) == 1 && Gcd(r, key.N()) == 1
    ensures signature.Some? ==> Server.VerifyUnblinded(sha, key, ballot, signature.value)
  {
    Server.ModulusAboveOne(key);
    var n, e := key.N(), key.e;
    var m := HashBallot(sha, ballot, n);
    var rE := ModPow(r, e, n);
    var blinded := (m * rE) % n;
    assert blinded == Server.Blinded(key, m, r);
    var received := HexNumber(BigIntToHex(blinded));
    var blindSig := Server.BlindSign(key, received);
    Server.SignsIffUnits(key, m, r);
    if blindSig.None? {
      return None;
    }
    var rInv := ModInverse(r, n);
    Server.BlindRoundTrip(sha, key, ballot, r, rInv);
    signature := Some((blindSig.value * rInv) % n);
  }
}
