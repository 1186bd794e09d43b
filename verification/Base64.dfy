/** Base64, section 4 of RFC 4648, as `b64encode` writes it and `b64decode(validate=True)` reads it. */
module Base64 {
  import opened Common

  /** Six bits as a character of the alphabet. */
  function EncodeSextet(v: nat): (c: char)
    requires v < 64
    ensures DecodeSextet(c) == Some(v)
  {
    if v < 26 then 'A' + v as char
    else if v < 52 then 'a' + (v - 26) as char
    else if v < 62 then '0' + (v - 52) as char
    else if v == 62 then '+' else '/'
  }

  function DecodeSextet(c: char): (v: Option<nat>)
    ensures v.Some? ==> v.value < 64
  {
    if 'A' <= c <= 'Z' then Some((c - 'A') as int)
    else if 'a' <= c <= 'z' then Some(26 + (c - 'a') as int)
    else if '0' <= c <= '9' then Some(52 + (c - '0') as int)
    else if c == '+' then Some(62)
    else if c == '/' then Some(63)
    else None
  }

  /** The alphabet, in the order of table 1 of RFC 4648. */
  lemma AlphabetIs(v: nat)
    requires v < 64
    ensures v < 26 ==> EncodeSextet(v) == "ABCDEFGHIJKLMNOPQRSTUVWXYZ"[v]
    ensures 26 <= v < 52 ==> EncodeSextet(v) == "abcdefghijklmnopqrstuvwxyz"[v - 26]
    ensures 52 <= v < 62 ==> EncodeSextet(v) == "0123456789"[v - 52]
    ensures v >= 62 ==> EncodeSextet(v) == "+/"[v - 62]
  {
    if v < 26 {
      Consecutive('A', "ABCDEFGHIJKLMNOPQRSTUVWXYZ", v);
    } else if v < 52 {
      Consecutive('a', "abcdefghijklmnopqrstuvwxyz", v - 26);
    }
  }

  /** Consecutive characters. */
  lemma {:induction false} Consecutive(first: char, s: string, v: nat)
    requires v < |s| <= 26 && s[0] == first
    requires forall i :: 0 <= i < |s| - 1 ==> s[i + 1] as int == s[i] as int + 1
    ensures s[v] as int == first as int + v
  {
    if v > 0 {
      Consecutive(first, s, v - 1);
      assert s[v - 1 + 1] as int == s[v - 1] as int + 1;
    }
  }

  predicate InAlphabet(c: char)
  {
    DecodeSextet(c).Some?
  }

  function EncodeThree(a: Byte, b: Byte, c: Byte): (s: string)
    ensures |s| == 4
  {
    [EncodeSextet(a / 4), EncodeSextet(a % 4 * 16 + b / 16), EncodeSextet(b % 16 * 4 + c / 64), EncodeSextet(c % 64)]
  }

  function EncodeTwo(a: Byte, b: Byte): (s: string)
    ensures |s| == 4
  {
    [EncodeSextet(a / 4), EncodeSextet(a % 4 * 16 + b / 16), EncodeSextet(b % 16 * 4), '=']
  }

  function EncodeOne(a: Byte): (s: string)
    ensures |s| == 4
  {
    [EncodeSextet(a / 4), EncodeSextet(a % 4 * 16), '=', '=']
  }

  function Encode(b: seq<Byte>): (s: string)
    ensures |s| == (|b| + 2) / 3 * 4
  {
    if |b| == 0 then ""
    else if |b| == 1 then EncodeOne(b[0])
    else if |b| == 2 then EncodeTwo(b[0], b[1])
    else ThreeMore(|b| - 3); EncodeThree(b[0], b[1], b[2]) + Encode(b[3..])
  }

  lemma ThreeMore(n: nat)
    ensures (n + 3 + 2) / 3 == (n + 2) / 3 + 1
  {
  }

  /** The first, second and third byte that sextets carry; the bits beyond a padded end are ignored. */
  function FirstByte(w: nat, x: nat): (b: Byte)
    requires w < 64 && x < 64
  {
    w * 4 + x / 16
  }

  function SecondByte(x: nat, y: nat): (b: Byte)
    requires x < 64 && y < 64
  {
    x % 16 * 16 + y / 4
  }

  function ThirdByte(y: nat, z: nat): (b: Byte)
    requires y < 64 && z < 64
  {
    y % 4 * 64 + z
  }

  /** One group of four characters; padding is allowed only in the last group. */
  function DecodeGroup(s: string, last: bool): (b: Option<seq<Byte>>)
    requires |s| == 4
    ensures b.Some? ==> 1 <= |b.value| <= 3 && (!last ==> |b.value| == 3)
  {
    var w, x, y, z := DecodeSextet(s[0]), DecodeSextet(s[1]), DecodeSextet(s[2]), DecodeSextet(s[3]);
    if w.None? || x.None? then None
    else if y.Some? && z.Some? then
      Some([FirstByte(w.value, x.value), SecondByte(x.value, y.value), ThirdByte(y.value, z.value)])
    else if !last || s[3] != '=' then None
    else if y.Some? then Some([FirstByte(w.value, x.value), SecondByte(x.value, y.value)])
    else if s[2] == '=' then Some([FirstByte(w.value, x.value)])
    else None
  }

  function Decode(s: string): (b: Option<seq<Byte>>)
  {
    if s == "" then Some([])
    else if |s| < 4 then None
    else
      var group := DecodeGroup(s[..4], |s| == 4);
      var rest := Decode(s[4..]);
      if group.None? || rest.None? then None else Some(group.value + rest.value)
  }

  /** Only whole groups decode, each to at most three bytes. */
  lemma {:induction false} DecodeLength(s: string) returns (groups: nat)
    ensures Decode(s).Some? ==> |s| == 4 * groups && |Decode(s).value| <= 3 * groups
  {
    groups := 0;
    if |s| >= 4 {
      var rest := DecodeLength(s[4..]);
      groups := rest + 1;
    }
  }

  /** Three bytes cut into sextets and put together again. */
  lemma SextetsOfThree(a: Byte, b: Byte, c: Byte, w: nat, x: nat, y: nat, z: nat)
    requires w == a / 4 && x == a % 4 * 16 + b / 16 && y == b % 16 * 4 + c / 64 && z == c % 64
    ensures w < 64 && x < 64 && y < 64 && z < 64
    ensures FirstByte(w, x) == a && SecondByte(x, y) == b && ThirdByte(y, z) == c
  {
    assert x / 16 == a % 4 && x % 16 == b / 16;
    assert y / 4 == b % 16 && y % 4 == c / 64;
  }

  lemma SextetsOfTwo(a: Byte, b: Byte, w: nat, x: nat, y: nat)
    requires w == a / 4 && x == a % 4 * 16 + b / 16 && y == b % 16 * 4
    ensures w < 64 && x < 64 && y < 64 && FirstByte(w, x) == a && SecondByte(x, y) == b
  {
    assert x / 16 == a % 4 && x % 16 == b / 16;
    assert y / 4 == b % 16;
  }

  lemma SextetsOfOne(a: Byte, w: nat, x: nat)
    requires w == a / 4 && x == a % 4 * 16
    ensures w < 64 && x < 64 && FirstByte(w, x) == a
  {
    assert x / 16 == a % 4;
  }

  /** A group of four encoded sextets is decoded to the bytes they carry. */
  lemma DecodeFour(w: nat, x: nat, y: nat, z: nat, last: bool)
    requires w < 64 && x < 64 && y < 64 && z < 64
    ensures DecodeGroup([EncodeSextet(w), EncodeSextet(x), EncodeSextet(y), EncodeSextet(z)], last) ==
            Some([FirstByte(w, x), SecondByte(x, y), ThirdByte(y, z)])
  {
  }

  lemma DecodeThree(a: Byte, b: Byte, c: Byte, last: bool)
    ensures DecodeGroup(EncodeThree(a, b, c), last) == Some([a, b, c])
  {
    var w, x, y, z := a / 4, a % 4 * 16 + b / 16, b % 16 * 4 + c / 64, c % 64;
    SextetsOfThree(a, b, c, w, x, y, z);
    DecodeFour(w, x, y, z, last);
  }

  lemma DecodeOne(a: Byte)
    ensures DecodeGroup(EncodeOne(a), true) == Some([a])
  {
    var w, x := a / 4, a % 4 * 16;
    SextetsOfOne(a, w, x);
    assert EncodeOne(a) == [EncodeSextet(w), EncodeSextet(x), '=', '='];
  }

  lemma DecodeTwo(a: Byte, b: Byte)
    ensures DecodeGroup(EncodeTwo(a, b), true) == Some([a, b])
  {
    var w, x, y := a / 4, a % 4 * 16 + b / 16, b % 16 * 4;
    SextetsOfTwo(a, b, w, x, y);
    assert EncodeTwo(a, b) == [EncodeSextet(w), EncodeSextet(x), EncodeSextet(y), '='];
  }

  /** Decoding goes group by group. */
  lemma DecodeCons(group: string, rest: string, g: seq<Byte>, r: seq<Byte>)
    requires |group| == 4 && DecodeGroup(group, rest == "") == Some(g) && Decode(rest) == Some(r)
    ensures Decode(group + rest) == Some(g + r)
  {
    assert (group + rest)[..4] == group && (group + rest)[4..] == rest;
  }

  lemma DecodeLast(group: string, g: seq<Byte>)
    requires |group| == 4 && DecodeGroup(group, true) == Some(g)
    ensures Decode(group) == Some(g)
  {
    DecodeCons(group, "", g, []);
    assert group + "" == group && g + [] == g;
  }

  lemma SplitThree(b: seq<Byte>)
    requires |b| >= 3
    ensures b == [b[0], b[1], b[2]] + b[3..]
  {
  }

  lemma EncodeCons(b: seq<Byte>)
    requires |b| >= 3
    ensures Encode(b) == EncodeThree(b[0], b[1], b[2]) + Encode(b[3..])
  {
  }

  lemma RoundTripOne(a: Byte)
    ensures Decode(Encode([a])) == Some([a])
  {
    DecodeOne(a);
    DecodeLast(EncodeOne(a), [a]);
  }

  lemma RoundTripTwo(a: Byte, b: Byte)
    ensures Decode(Encode([a, b])) == Some([a, b])
  {
    DecodeTwo(a, b);
    DecodeLast(EncodeTwo(a, b), [a, b]);
  }

  /** Decoding what was encoded gives the bytes back. */
  lemma {:induction false} RoundTrip(b: seq<Byte>)
    ensures Decode(Encode(b)) == Some(b)
  {
    if |b| >= 3 {
      var rest := Encode(b[3..]);
      RoundTrip(b[3..]);
      EncodeCons(b);
      SplitThree(b);
      DecodeThree(b[0], b[1], b[2], rest == "");
      DecodeCons(EncodeThree(b[0], b[1], b[2]), rest, [b[0], b[1], b[2]], b[3..]);
    } else if |b| == 2 {
      RoundTripTwo(b[0], b[1]);
      assert b == [b[0], b[1]];
    } else if |b| == 1 {
      RoundTripOne(b[0]);
      assert b == [b[0]];
    }
  }

  /** Encoded text comes in whole groups. */
  lemma EncodeWhole(b: seq<Byte>)
    ensures |Encode(b)| % 4 == 0 && (Encode(b) == "" <==> b == [])
  {
    WholeGroups(|Encode(b)|, |b|);
  }

  lemma WholeGroups(length: nat, n: nat)
    requires length == (n + 2) / 3 * 4
    ensures length % 4 == 0 && (length == 0 <==> n == 0)
  {
  }

  /** The encoder stays in the alphabet, so its output carries no white space. */
  lemma {:induction false} EncodeIsText(b: seq<Byte>, i: nat)
    requires i < |Encode(b)|
    ensures InAlphabet(Encode(b)[i]) || Encode(b)[i] == '='
  {
    if |b| >= 3 && i >= 4 {
      EncodeIsText(b[3..], i - 4);
    }
  }

  /** Examples of section 10 of RFC 4648: no byte, one, two and three, and a group before a padded one. */
  lemma Vectors()
    ensures Encode([]) == "" && Encode([102]) == "Zg==" && Encode([102, 111]) == "Zm8="
    ensures Encode([102, 111, 111]) == "Zm9v" && Encode([102, 111, 111, 98, 97]) == "Zm9v" + "YmE="
  {
    GroupThenRest();
  }

  lemma GroupThenRest()
    ensures Encode([102, 111, 111]) == "Zm9v" && Encode([102, 111, 111, 98, 97]) == "Zm9v" + "YmE="
  {
    assert [102, 111, 111, 98, 97][3..] == [98, 97] && [102, 111, 111][3..] == [];
    assert EncodeThree(102, 111, 111) == "Zm9v" && EncodeTwo(98, 97) == "YmE=";
  }
}
