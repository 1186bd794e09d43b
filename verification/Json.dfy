/**
 JSON as the application writes and reads it: `json.dumps(v, sort_keys=True, separators=(',', ':'))` with
 its default escaping to ASCII, and `json.loads` on the values the application exchanges (no fractions
 or exponents). A Python dict is a list of fields in strictly increasing key order.
 */
module Json {
  import opened Common
  import opened Hex
  import opened Text

  datatype Value =
    | Null
    | Bool(b: bool)
    | Num(n: int)
    | Str(s: string)
    | Arr(items: seq<Value>)
    | Obj(fields: seq<Field>)

  datatype Field = Field(key: string, value: Value)

  /** Fields in strictly increasing key order, all the way down. */
  ghost predicate WellFormed(v: Value)
    decreases v, 1
  {
    match v
    case Arr(items) => forall i :: 0 <= i < |items| ==> WellFormed(items[i])
    case Obj(fields) => FieldsOk(fields)
    case _ => true
  }

  ghost predicate FieldsOk(fields: seq<Field>)
    decreases fields, 0
  {
    fields == [] ||
    (&& WellFormed(fields[0].value)
     && (|fields| > 1 ==> Less(fields[0].key, fields[1].key))
     && FieldsOk(fields[1..]))
  }

  // ---------------------------------------------------------------- printing

  function Hex4(n: nat): (s: string)
    requires n < 0x1_0000
  {
    [HexDigit(n / 0x1000), HexDigit(n / 0x100 % 16), HexDigit(n / 0x10 % 16), HexDigit(n % 16)]
  }

  /** One character of a string literal, escaped to ASCII. */
  function EscapeChar(c: char): (s: string)
    ensures |s| > 0
  {
    var n := c as int;
    if c == '\"' then "\\\""
    else if c == '\\' then "\\\\"
    else if c == '\n' then "\\n"
    else if c == '\r' then "\\r"
    else if c == '\t' then "\\t"
    else if n == 8 then "\\b"
    else if n == 12 then "\\f"
    else if ' ' <= c <= '~' then [c]
    else if n < 0x1_0000 then "\\u" + Hex4(n)
    else SurrogatePair(c)
  }

  function SurrogatePair(c: char): (s: string)
    requires c as int >= 0x1_0000
    ensures |s| > 0
  {
    PairText(HighUnit(c), LowUnit(c))
  }

  function HighUnit(c: char): (u: nat)
    requires c as int >= 0x1_0000
    ensures 0xd800 <= u < 0xdc00
  {
    0xd800 + (c as int - 0x1_0000) / 0x400
  }

  function LowUnit(c: char): (u: nat)
    requires c as int >= 0x1_0000
    ensures 0xdc00 <= u < 0xe000
  {
    0xdc00 + (c as int - 0x1_0000) % 0x400
  }

  function PairText(hi: nat, lo: nat): (s: string)
    requires hi < 0x1_0000 && lo < 0x1_0000
    ensures |s| > 0
  {
    "\\u" + Hex4(hi) + "\\u" + Hex4(lo)
  }

  function Escape(s: string): (r: string)
  {
    if s == "" then "" else EscapeChar(s[0]) + Escape(s[1..])
  }

  function Quote(s: string): (r: string)
  {
    "\"" + Escape(s) + "\""
  }

  function Digit(d: nat): (c: char)
    requires d < 10
    ensures IsDigit(c) && DigitValue(c) == d
  {
    "0123456789"[d]
  }

  predicate IsDigit(c: char)
  {
    '0' <= c <= '9'
  }

  function DigitValue(c: char): (d: nat)
    requires IsDigit(c)
  {
    (c - '0') as int
  }

  function Decimal(n: nat): (s: string)
    ensures |s| > 0 && forall i :: 0 <= i < |s| ==> IsDigit(s[i])
  {
    if n < 10 then [Digit(n)] else Decimal(n / 10) + [Digit(n % 10)]
  }

  function PrintNumber(n: int): (s: string)
  {
    if n < 0 then "-" + Decimal(-n) else Decimal(n)
  }

  /** `json.dumps` with sorted keys and no white space. */
  function Print(v: Value): (s: string)
    decreases v, 1
  {
    match v
    case Null => "null"
    case Bool(b) => if b then "true" else "false"
    case Num(n) => PrintNumber(n)
    case Str(s) => Quote(s)
    case Arr(items) => "[" + (if items == [] then "]" else PrintItems(items))
    case Obj(fields) => "{" + (if fields == [] then "}" else PrintFields(fields))
  }

  /** The elements of a non-empty array and the closing bracket. */
  function PrintItems(items: seq<Value>): (s: string)
    requires items != []
    decreases items, 0
  {
    Print(items[0]) + if |items| == 1 then "]" else "," + PrintItems(items[1..])
  }

  function PrintFields(fields: seq<Field>): (s: string)
    requires fields != []
    decreases fields, 0
  {
    Quote(fields[0].key) + ":" + Print(fields[0].value) + if |fields| == 1 then "}" else "," + PrintFields(fields[1..])
  }

  /** How values are set, to the character: no white space, and a comma and a colon where JSON has them. */
  lemma PrintSays(v: Value, w: Value)
    ensures Print(Null) == "null" && Print(Bool(true)) == "true" && Print(Bool(false)) == "false"
    ensures Print(Arr([])) == "[]" && Print(Obj([])) == "{}"
    ensures Print(Arr([v, w])) == "[" + (Print(v) + ("," + (Print(w) + "]")))
  {
    assert [v, w][1..] == [w];
    assert PrintItems([w]) == Print(w) + "]" && "[" + "]" == "[]" && "{" + "}" == "{}";
  }

  lemma PrintFieldsSays(v: Value, w: Value, k: string, l: string)
    ensures Print(Obj([Field(k, v), Field(l, w)])) ==
            "{" + (Print(Str(k)) + ":" + Print(v) + ("," + (Print(Str(l)) + ":" + Print(w) + "}")))
  {
    assert [Field(k, v), Field(l, w)][1..] == [Field(l, w)];
    assert PrintFields([Field(l, w)]) == Print(Str(l)) + ":" + Print(w) + "}";
    assert PrintFields([Field(k, v), Field(l, w)]) ==
           Print(Str(k)) + ":" + Print(v) + ("," + PrintFields([Field(l, w)]));
  }

  /** How characters are set: ASCII as it is but for the quote and the backslash, all else by its lower-case units. */
  lemma EscapeSays(c: char)
    ensures ' ' <= c <= '~' && c != '\"' && c != '\\' ==> EscapeChar(c) == [c]
    ensures EscapeChar('\"') == "\\\"" && EscapeChar('\\') == "\\\\"
    ensures EscapeChar('\n') == "\\n" && EscapeChar('\r') == "\\r" && EscapeChar('\t') == "\\t"
    ensures EscapeChar(8 as char) == "\\b" && EscapeChar(12 as char) == "\\f"
    ensures 0x7f <= c as int < 0x1_0000 ==> EscapeChar(c) == "\\u" + Hex4(c as int)
  {
  }

  // ---------------------------------------------------------------- parsing

  type Parsed<T> = Option<(T, string)>

  predicate IsSpace(c: char)
  {
    c == ' ' || c == '\n' || c == '\r' || c == '\t'
  }

  function SkipSpace(s: string): (r: string)
    ensures |r| <= |s|
    ensures r != "" ==> !IsSpace(r[0])
    ensures s != "" && !IsSpace(s[0]) ==> r == s
  {
    if s != "" && IsSpace(s[0]) then SkipSpace(s[1..]) else s
  }

  function ParseHex4(s: string): (r: Parsed<nat>)
    ensures r.Some? ==> r.value.0 < 0x1_0000 && |s| == 4 + |r.value.1|
  {
    if |s| >= 4 && IsHex(s[0]) && IsHex(s[1]) && IsHex(s[2]) && IsHex(s[3])
    then Some((HexValue(s[0]) * 0x1000 + HexValue(s[1]) * 0x100 + HexValue(s[2]) * 0x10 + HexValue(s[3]), s[4..]))
    else None
  }

  /** The rest of a \u escape: one code unit, or a surrogate pair. Lone surrogates are not characters here. */
  function ParseUnicode(s: string): (r: Parsed<char>)
    ensures r.Some? ==> |r.value.1| < |s|
  {
    var u := ParseHex4(s);
    if u.None? then None
    else if u.value.0 < 0xd800 || 0xe000 <= u.value.0 then Some((u.value.0 as char, u.value.1))
    else if u.value.0 >= 0xdc00 || |u.value.1| < 2 || u.value.1[0] != '\\' || u.value.1[1] != 'u' then None
    else
      var w := ParseHex4(u.value.1[2..]);
      if w.Some? && 0xdc00 <= w.value.0 < 0xe000
      then Some(((0x1_0000 + (u.value.0 - 0xd800) * 0x400 + (w.value.0 - 0xdc00)) as char, w.value.1))
      else None
  }

  /** One character of a string literal. */
  function ParseChar(s: string): (r: Parsed<char>)
    requires s != ""
    ensures r.Some? ==> |r.value.1| < |s|
  {
    if s[0] != '\\' then (if ' ' <= s[0] then Some((s[0], s[1..])) else None)
    else if |s| < 2 then None
    else if s[1] == '\"' || s[1] == '\\' || s[1] == '/' then Some((s[1], s[2..]))
    else if s[1] == 'n' then Some(('\n', s[2..]))
    else if s[1] == 'r' then Some(('\r', s[2..]))
    else if s[1] == 't' then Some(('\t', s[2..]))
    else if s[1] == 'b' then Some((8 as char, s[2..]))
    else if s[1] == 'f' then Some((12 as char, s[2..]))
    else if s[1] == 'u' then ParseUnicode(s[2..])
    else None
  }

  /** The rest of a string literal after its opening quote. */
  function ParseString(s: string): (r: Parsed<string>)
    ensures r.Some? ==> |r.value.1| < |s|
    decreases |s|
  {
    if s == "" then None
    else if s[0] == '\"' then Some(("", s[1..]))
    else
      var c := ParseChar(s);
      if c.None? then None
      else
        var t := ParseString(c.value.1);
        if t.None? then None else Some(([c.value.0] + t.value.0, t.value.1))
  }

  function ParseDigits(acc: nat, s: string): (r: (nat, string))
    ensures |r.1| <= |s|
    decreases |s|
  {
    if s != "" && IsDigit(s[0]) then ParseDigits(acc * 10 + DigitValue(s[0]), s[1..]) else (acc, s)
  }

  function ParseNatural(s: string): (r: Parsed<nat>)
    ensures r.Some? ==> |r.value.1| < |s|
  {
    if s == "" || !IsDigit(s[0]) then None
    else if s[0] == '0' then Some((0, s[1..]))
    else Some(ParseDigits(DigitValue(s[0]), s[1..]))
  }

  function ParseNumber(s: string): (r: Parsed<Value>)
    ensures r.Some? ==> |r.value.1| < |s|
  {
    if s != "" && s[0] == '-' then
      var n := ParseNatural(s[1..]);
      if n.None? then None else Some((Num(0 - n.value.0), n.value.1))
    else
      var n := ParseNatural(s);
      if n.None? then None else Some((Num(n.value.0), n.value.1))
  }

  /** Put a field in its place; a later field with the same key, already there, wins. */
  function AddField(k: string, v: Value, fields: seq<Field>): (r: seq<Field>)
  {
    if fields == [] then [Field(k, v)]
    else if k == fields[0].key then fields
    else if Less(k, fields[0].key) then [Field(k, v)] + fields
    else [fields[0]] + AddField(k, v, fields[1..])
  }

  /** `json.loads` of the value at the front of a text. */
  function ParseValue(text: string): (r: Parsed<Value>)
    ensures r.Some? ==> |r.value.1| < |text|
    decreases |text|, 2
  {
    var s := SkipSpace(text);
    if s == "" then None
    else if StartsWith(s, "null") then Some((Null, s[4..]))
    else if StartsWith(s, "true") then Some((Bool(true), s[4..]))
    else if StartsWith(s, "false") then Some((Bool(false), s[5..]))
    else ParseOther(s)
  }

  /** A value that is not a literal name, with no white space before it. */
  function ParseOther(s: string): (r: Parsed<Value>)
    requires s != ""
    ensures r.Some? ==> |r.value.1| < |s|
    decreases |s|, 1
  {
    if s[0] == '\"' then
      var t := ParseString(s[1..]);
      if t.None? then None else Some((Str(t.value.0), t.value.1))
    else if s[0] == '[' then
      var t := SkipSpace(s[1..]);
      if t != "" && t[0] == ']' then Some((Arr([]), t[1..]))
      else
        var items := ParseItems(t);
        if items.None? then None else Some((Arr(items.value.0), items.value.1))
    else if s[0] == '{' then
      var t := SkipSpace(s[1..]);
      if t != "" && t[0] == '}' then Some((Obj([]), t[1..]))
      else
        var fields := ParseFields(t);
        if fields.None? then None else Some((Obj(fields.value.0), fields.value.1))
    else ParseNumber(s)
  }

  function ParseItems(text: string): (r: Parsed<seq<Value>>)
    ensures r.Some? ==> |r.value.1| < |text|
    decreases |text|, 3
  {
    var v := ParseValue(text);
    if v.None? then None
    else
      var t := SkipSpace(v.value.1);
      if t == "" then None
      else if t[0] == ']' then Some(([v.value.0], t[1..]))
      else if t[0] != ',' then None
      else
        var more := ParseItems(t[1..]);
        if more.None? then None else Some(([v.value.0] + more.value.0, more.value.1))
  }

  function ParseFields(text: string): (r: Parsed<seq<Field>>)
    ensures r.Some? ==> |r.value.1| < |text|
    decreases |text|, 3
  {
    var s := SkipSpace(text);
    if s == "" || s[0] != '\"' then None
    else
      var k := ParseString(s[1..]);
      if k.None? then None
      else
        var c := SkipSpace(k.value.1);
        if c == "" || c[0] != ':' then None
        else
          var v := ParseValue(c[1..]);
          if v.None? then None
          else
            var t := SkipSpace(v.value.1);
            if t == "" then None
            else if t[0] == '}' then Some(([Field(k.value.0, v.value.0)], t[1..]))
            else if t[0] != ',' then None
            else
              var more := ParseFields(t[1..]);
              if more.None? then None
              else Some((AddField(k.value.0, v.value.0, more.value.0), more.value.1))
  }

  /** `json.loads`: one value and nothing but white space after it. */
  function Loads(text: string): (v: Option<Value>)
  {
    var r := ParseValue(text);
    if r.Some? && SkipSpace(r.value.1) == "" then Some(r.value.0) else None
  }

  // ---------------------------------------------------------------- round trip

  lemma Nibbles(n: nat)
    ensures n == n / 0x1000 * 0x1000 + n / 0x100 % 16 * 0x100 + n / 0x10 % 16 * 0x10 + n % 16
  {
    assert n / 0x100 == n / 0x10 / 16;
    assert n / 0x1000 == n / 0x100 / 16;
  }

  lemma ParseHex4Of(n: nat, rest: string)
    requires n < 0x1_0000
    ensures ParseHex4(Hex4(n) + rest) == Some((n, rest))
  {
    var h := Hex4(n);
    var s := h + rest;
    assert s[0] == h[0] && s[1] == h[1] && s[2] == h[2] && s[3] == h[3];
    assert s[4..] == rest;
    Nibbles(n);
  }

  lemma ParseUnicodeOf(c: char, rest: string)
    requires c as int < 0x1_0000
    ensures ParseUnicode(Hex4(c as int) + rest) == Some((c, rest))
  {
    ParseHex4Of(c as int, rest);
  }

  lemma PairFromUnits(s: string, hi: nat, tail: string, lo: nat, rest: string, c: char)
    requires ParseHex4(s) == Some((hi, tail)) && 0xd800 <= hi < 0xdc00
    requires |tail| >= 2 && tail[0] == '\\' && tail[1] == 'u'
    requires ParseHex4(tail[2..]) == Some((lo, rest)) && 0xdc00 <= lo < 0xe000
    requires c as int == 0x1_0000 + (hi - 0xd800) * 0x400 + (lo - 0xdc00)
    ensures ParseUnicode(s) == Some((c, rest))
  {
  }

  lemma ParsePairOf(hi: nat, lo: nat, c: char, rest: string)
    requires 0xd800 <= hi < 0xdc00 <= lo < 0xe000
    requires c as int == 0x1_0000 + (hi - 0xd800) * 0x400 + (lo - 0xdc00)
    ensures ParseUnicode(Hex4(hi) + ("\\u" + (Hex4(lo) + rest))) == Some((c, rest))
  {
    var inner := Hex4(lo) + rest;
    var tail := "\\u" + inner;
    ParseHex4Of(hi, tail);
    ParseHex4Of(lo, rest);
    AfterPrefix("\\u", inner);
    PairFromUnits(Hex4(hi) + tail, hi, tail, lo, rest, c);
  }

  predicate Short(c: char)
  {
    c == '\"' || c == '\\' || c == '\n' || c == '\r' || c == '\t' || c as int == 8 || c as int == 12
  }

  lemma ParseShortOf(c: char, rest: string)
    requires Short(c)
    ensures ParseChar(EscapeChar(c) + rest) == Some((c, rest))
  {
    var e := EscapeChar(c);
    var s := e + rest;
    assert |e| == 2 && s[0] == e[0] && s[1] == e[1] && s[2..] == rest;
  }

  lemma ParseUnicodeEscape(x: string, c: char, rest: string)
    requires ParseUnicode(x) == Some((c, rest))
    ensures ParseChar("\\u" + x) == Some((c, rest))
  {
    AfterPrefix("\\u", x);
  }

  lemma ParseLongOf(c: char, rest: string)
    requires !Short(c) && !(' ' <= c <= '~') && c as int < 0x1_0000
    ensures ParseChar(EscapeChar(c) + rest) == Some((c, rest))
  {
    var h := Hex4(c as int);
    ParseUnicodeOf(c, rest);
    ParseUnicodeEscape(h + rest, c, rest);
    Assoc("\\u", h, rest);
  }

  lemma ParseAstralOf(c: char, rest: string)
    requires c as int >= 0x1_0000
    ensures ParseChar(SurrogatePair(c) + rest) == Some((c, rest))
  {
    UnitsOf(c);
    ParsePairText(HighUnit(c), LowUnit(c), c, rest);
  }

  lemma UnitsOf(c: char)
    requires c as int >= 0x1_0000
    ensures c as int == 0x1_0000 + (HighUnit(c) - 0xd800) * 0x400 + (LowUnit(c) - 0xdc00)
  {
  }

  lemma ParsePairText(hi: nat, lo: nat, c: char, rest: string)
    requires 0xd800 <= hi < 0xdc00 <= lo < 0xe000
    requires c as int == 0x1_0000 + (hi - 0xd800) * 0x400 + (lo - 0xdc00)
    ensures ParseChar(PairText(hi, lo) + rest) == Some((c, rest))
  {
    ParsePairOf(hi, lo, c, rest);
    ParseUnicodeEscape(Hex4(hi) + ("\\u" + (Hex4(lo) + rest)), c, rest);
    AssocPair(Hex4(hi), Hex4(lo), rest);
  }

  lemma AssocPair(h: string, l: string, rest: string)
    ensures "\\u" + h + "\\u" + l + rest == "\\u" + (h + ("\\u" + (l + rest)))
  {
    Assoc("\\u", h, "\\u" + (l + rest));
    Assoc("\\u" + h, "\\u", l + rest);
    Assoc("\\u" + h + "\\u", l, rest);
  }

  lemma ParseCharOf(c: char, rest: string)
    ensures ParseChar(EscapeChar(c) + rest) == Some((c, rest))
  {
    if Short(c) {
      ParseShortOf(c, rest);
    } else if ' ' <= c <= '~' {
      assert ([c] + rest)[1..] == rest;
    } else if c as int < 0x1_0000 {
      ParseLongOf(c, rest);
    } else {
      ParseAstralOf(c, rest);
    }
  }

  lemma EscapeNeverQuotes(c: char)
    ensures EscapeChar(c)[0] != '\"'
  {
  }

  /** One escaped character in front of the rest of a literal. */
  lemma ParseOneMoreChar(c: char, tail: string, x: string, rest: string)
    requires ParseString(tail) == Some((x, rest))
    ensures ParseString(EscapeChar(c) + tail) == Some(([c] + x, rest))
  {
    var text := EscapeChar(c) + tail;
    ParseCharOf(c, tail);
    EscapeNeverQuotes(c);
    assert text[0] == EscapeChar(c)[0];
    ParseStringStep(text, c, tail, x, rest);
  }

  lemma ParseStringStep(text: string, c: char, tail: string, x: string, rest: string)
    requires text != "" && text[0] != '\"'
    requires ParseChar(text) == Some((c, tail)) && ParseString(tail) == Some((x, rest))
    ensures ParseString(text) == Some(([c] + x, rest))
  {
  }

  lemma {:induction false} ParseStringOf(s: string, rest: string)
    ensures ParseString(Escape(s) + "\"" + rest) == Some((s, rest))
  {
    if s == "" {
      assert Escape(s) + "\"" + rest == "\"" + rest;
      AfterPrefix("\"", rest);
    } else {
      var e, tail := EscapeChar(s[0]), Escape(s[1..]) + "\"" + rest;
      EscapeText(e, Escape(s[1..]), rest);
      ParseStringOf(s[1..], rest);
      ParseOneMoreChar(s[0], tail, s[1..], rest);
      assert [s[0]] + s[1..] == s;
    }
  }

  lemma EscapeText(e: string, more: string, rest: string)
    ensures (e + more) + "\"" + rest == e + (more + "\"" + rest)
  {
    Assoc(e, more, "\"");
    Assoc(e, more + "\"", rest);
  }

  predicate AllDigits(d: string)
  {
    forall i :: 0 <= i < |d| ==> IsDigit(d[i])
  }

  /** Reading digits from left to right, from an accumulator. */
  function ReadDigits(acc: nat, d: string): (n: nat)
    requires AllDigits(d)
    decreases |d|
  {
    if d == "" then acc else ReadDigits(acc * 10 + DigitValue(d[0]), d[1..])
  }

  lemma {:induction false} ReadDigitsSnoc(acc: nat, d: string, c: char)
    requires AllDigits(d) && IsDigit(c)
    ensures AllDigits(d + [c]) && ReadDigits(acc, d + [c]) == ReadDigits(acc, d) * 10 + DigitValue(c)
    decreases |d|
  {
    if d == "" {
      assert (d + [c])[1..] == "";
    } else {
      ReadDigitsSnoc(acc * 10 + DigitValue(d[0]), d[1..], c);
      assert (d + [c])[1..] == d[1..] + [c];
    }
  }

  lemma {:induction false} ReadDecimal(n: nat)
    ensures ReadDigits(0, Decimal(n)) == n && (n > 0 ==> Decimal(n)[0] != '0')
  {
    if n < 10 {
      assert Decimal(n)[1..] == "";
    } else {
      ReadDecimal(n / 10);
      ReadDigitsSnoc(0, Decimal(n / 10), Digit(n % 10));
    }
  }

  /** Digits without a leading zero are the decimal text of the number they read as. */
  lemma {:induction false} DecimalOfDigits(d: string)
    requires d != "" && d[0] != '0' && AllDigits(d)
    ensures ReadDigits(0, d) > 0 && Decimal(ReadDigits(0, d)) == d
  {
    var front, last := d[..|d| - 1], d[|d| - 1];
    assert d == front + [last];
    ReadDigitsSnoc(0, front, last);
    if front != "" {
      DecimalOfDigits(front);
      DecimalSnoc(ReadDigits(0, front), last);
    } else {
      DigitOfValue(last);
    }
  }

  lemma DecimalSnoc(n: nat, c: char)
    requires n > 0 && IsDigit(c)
    ensures Decimal(n * 10 + DigitValue(c)) == Decimal(n) + [c]
  {
    DigitOfValue(c);
  }

  lemma DigitOfValue(c: char)
    requires IsDigit(c)
    ensures DigitValue(c) < 10 && Digit(DigitValue(c)) == c
  {
  }

  /** What may follow a value inside a canonical text. */
  predicate Follows(rest: string)
  {
    rest == "" || rest[0] == ',' || rest[0] == ']' || rest[0] == '}'
  }

  lemma {:induction false} ParseDigitsOf(acc: nat, d: string, rest: string)
    requires AllDigits(d) && Follows(rest)
    ensures ParseDigits(acc, d + rest) == (ReadDigits(acc, d), rest)
    decreases |d|
  {
    if d == "" {
      assert d + rest == rest;
    } else {
      assert (d + rest)[1..] == d[1..] + rest;
      ParseDigitsOf(acc * 10 + DigitValue(d[0]), d[1..], rest);
    }
  }

  lemma ParseNaturalOf(n: nat, rest: string)
    requires Follows(rest)
    ensures ParseNatural(Decimal(n) + rest) == Some((n, rest))
  {
    var d := Decimal(n);
    ReadDecimal(n);
    assert (d + rest)[1..] == d[1..] + rest;
    if n == 0 {
      assert d[1..] + rest == rest;
    } else {
      ParseDigitsOf(DigitValue(d[0]), d[1..], rest);
    }
  }

  lemma ParseNumberSign(s: string, n: nat, rest: string)
    ensures ParseNatural(s) == Some((n, rest)) ==> ParseNumber("-" + s) == Some((Num(0 - n), rest))
    ensures s != "" && s[0] != '-' && ParseNatural(s) == Some((n, rest)) ==> ParseNumber(s) == Some((Num(n), rest))
  {
    assert ("-" + s)[1..] == s;
  }

  lemma ParseNumberOf(n: int, rest: string)
    requires Follows(rest)
    ensures ParseNumber(PrintNumber(n) + rest) == Some((Num(n), rest))
  {
    var m: nat := if n < 0 then -n else n;
    var d := Decimal(m);
    ParseNaturalOf(m, rest);
    ParseNumberSign(d + rest, m, rest);
    Assoc("-", d, rest);
    assert (d + rest)[0] == d[0];
  }

  lemma ParseLiteralOf(v: Value, rest: string)
    requires v.Null? || v.Bool?
    ensures ParseValue(Print(v) + rest) == Some((v, rest))
  {
    var p := Print(v);
    var s := p + rest;
    assert s[..|p|] == p && s[|p|..] == rest && s[0] == p[0];
    assert v == Bool(false) ==> s[..4] == "fals";
    assert v == Bool(true) ==> s[..4] == "true";
  }

  lemma ParseNumberValue(n: int, rest: string)
    requires Follows(rest)
    ensures ParseValue(PrintNumber(n) + rest) == Some((Num(n), rest))
  {
    var s := PrintNumber(n) + rest;
    assert s[0] == PrintNumber(n)[0];
    assert s[0] == '-' || IsDigit(s[0]);
    ParseNumberOf(n, rest);
    ParseOtherValue(s);
  }

  lemma NotALiteral(s: string)
    requires s != "" && s[0] != 'n' && s[0] != 't' && s[0] != 'f'
    ensures !StartsWith(s, "null") && !StartsWith(s, "true") && !StartsWith(s, "false")
  {
    FirstDiffers(s, "null");
    FirstDiffers(s, "true");
    FirstDiffers(s, "false");
  }

  lemma FirstDiffers(s: string, p: string)
    requires s != "" && p != "" && s[0] != p[0]
    ensures !StartsWith(s, p)
  {
    assert |p| <= |s| ==> s[..|p|][0] == s[0];
  }

  lemma ParseOtherValue(s: string)
    requires s != "" && !IsSpace(s[0]) && s[0] != 'n' && s[0] != 't' && s[0] != 'f'
    ensures ParseValue(s) == ParseOther(s)
  {
    NotALiteral(s);
  }

  lemma ParseStringValue(inner: string, x: string, rest: string)
    requires ParseString(inner) == Some((x, rest))
    ensures ParseOther("\"" + inner) == Some((Str(x), rest))
  {
    AfterPrefix("\"", inner);
  }

  lemma ParseArrayValue(inner: string, items: seq<Value>, rest: string)
    requires inner != "" && !IsSpace(inner[0]) && inner[0] != ']' && ParseItems(inner) == Some((items, rest))
    ensures ParseOther("[" + inner) == Some((Arr(items), rest))
  {
    AfterPrefix("[", inner);
    ParseArrayStep("[" + inner, inner, items, rest);
  }

  lemma ParseArrayStep(s: string, inner: string, items: seq<Value>, rest: string)
    requires s != "" && s[0] == '[' && s[1..] == inner && inner != "" && !IsSpace(inner[0]) && inner[0] != ']'
    requires ParseItems(inner) == Some((items, rest))
    ensures ParseOther(s) == Some((Arr(items), rest))
  {
  }

  lemma ParseObjectValue(inner: string, fields: seq<Field>, rest: string)
    requires inner != "" && inner[0] == '\"' && ParseFields(inner) == Some((fields, rest))
    ensures ParseOther("{" + inner) == Some((Obj(fields), rest))
  {
    AfterPrefix("{", inner);
    ParseObjectStep("{" + inner, inner, fields, rest);
  }

  lemma ParseObjectStep(s: string, inner: string, fields: seq<Field>, rest: string)
    requires s != "" && s[0] == '{' && s[1..] == inner && inner != "" && inner[0] == '\"'
    requires ParseFields(inner) == Some((fields, rest))
    ensures ParseOther(s) == Some((Obj(fields), rest))
  {
  }

  lemma ParseEmptyValue(rest: string)
    ensures ParseValue("[" + "]" + rest) == Some((Arr([]), rest))
    ensures ParseValue("{" + "}" + rest) == Some((Obj([]), rest))
  {
    EmptyBrackets("[", "]", rest);
    EmptyBrackets("{", "}", rest);
    ParseOtherValue("[" + "]" + rest);
    ParseOtherValue("{" + "}" + rest);
  }

  lemma {:induction false} FirstCharOfPrint(v: Value)
    ensures Print(v) != "" && !IsSpace(Print(v)[0]) && Print(v)[0] != ']' && Print(v)[0] != '}'
  {
  }

  lemma ArrayText(items: seq<Value>, rest: string)
    requires items != [] && ParseItems(PrintItems(items) + rest) == Some((items, rest))
    ensures ParseValue(Print(Arr(items)) + rest) == Some((Arr(items), rest))
  {
    var inner := PrintItems(items) + rest;
    Assoc("[", PrintItems(items), rest);
    FirstCharOfPrint(items[0]);
    assert inner[0] == Print(items[0])[0];
    ParseArrayValue(inner, items, rest);
    ParseOtherValue("[" + inner);
  }

  lemma ObjectText(fields: seq<Field>, rest: string)
    requires fields != [] && ParseFields(PrintFields(fields) + rest) == Some((fields, rest))
    ensures ParseValue(Print(Obj(fields)) + rest) == Some((Obj(fields), rest))
  {
    var inner := PrintFields(fields) + rest;
    Assoc("{", PrintFields(fields), rest);
    assert inner[0] == '\"';
    ParseObjectValue(inner, fields, rest);
    ParseOtherValue("{" + inner);
  }

  lemma StringText(x: string, rest: string)
    ensures ParseValue(Print(Str(x)) + rest) == Some((Str(x), rest))
  {
    var inner := Escape(x) + "\"" + rest;
    assert Print(Str(x)) + rest == "\"" + inner;
    ParseStringOf(x, rest);
    ParseStringValue(inner, x, rest);
    ParseOtherValue("\"" + inner);
  }

  /** Parsing what was printed gives the value back and leaves what follows. */
  lemma {:induction false} ParseValueOf(v: Value, rest: string)
    requires WellFormed(v) && Follows(rest)
    ensures ParseValue(Print(v) + rest) == Some((v, rest))
    decreases v, 1
  {
    if v == Arr([]) || v == Obj([]) {
      ParseEmptyValue(rest);
    } else if v.Arr? {
      ParseItemsOf(v.items, rest);
      ArrayText(v.items, rest);
    } else if v.Obj? {
      ParseFieldsOf(v.fields, rest);
      ObjectText(v.fields, rest);
    } else if v.Str? {
      StringText(v.s, rest);
    } else if v.Num? {
      ParseNumberValue(v.n, rest);
    } else {
      ParseLiteralOf(v, rest);
    }
  }

  lemma EmptyBrackets(o: string, c: string, rest: string)
    requires |o| == |c| == 1
    ensures (o + c + rest)[1..] == c + rest && (o + c + rest)[0] == o[0]
    ensures (c + rest)[0] == c[0] && (c + rest)[1..] == rest
  {
  }

  lemma ParseLastItem(v: Value, text: string, rest: string)
    requires ParseValue(text) == Some((v, "]" + rest))
    ensures ParseItems(text) == Some(([v], rest))
  {
    AfterPrefix("]", rest);
  }

  lemma ParseOneMoreItem(v: Value, text: string, more: string, items: seq<Value>, rest: string)
    requires ParseValue(text) == Some((v, "," + more)) && ParseItems(more) == Some((items, rest))
    ensures ParseItems(text) == Some(([v] + items, rest))
  {
    AfterPrefix(",", more);
  }

  lemma PrintItemsText(items: seq<Value>, rest: string)
    requires items != []
    ensures PrintItems(items) + rest ==
            Print(items[0]) + if |items| == 1 then "]" + rest else "," + (PrintItems(items[1..]) + rest)
  {
    if |items| == 1 {
      Assoc(Print(items[0]), "]", rest);
    } else {
      Assoc(Print(items[0]), "," + PrintItems(items[1..]), rest);
      Assoc(",", PrintItems(items[1..]), rest);
    }
  }

  lemma {:induction false} ParseItemsOf(items: seq<Value>, rest: string)
    requires items != [] && forall i :: 0 <= i < |items| ==> WellFormed(items[i])
    ensures ParseItems(PrintItems(items) + rest) == Some((items, rest))
    decreases items, 0
  {
    var v := items[0];
    PrintItemsText(items, rest);
    HeadTail(items);
    if |items| == 1 {
      ParseValueOf(v, "]" + rest);
      ParseLastItem(v, Print(v) + ("]" + rest), rest);
    } else {
      var more := PrintItems(items[1..]) + rest;
      ParseValueOf(v, "," + more);
      ParseItemsOf(items[1..], rest);
      ParseOneMoreItem(v, Print(v) + ("," + more), more, items[1..], rest);
    }
  }

  lemma AddSmallest(f: Field, fields: seq<Field>)
    requires fields != [] && Less(f.key, fields[0].key)
    ensures AddField(f.key, f.value, fields) == [f] + fields
  {
    LessTrichotomy(f.key, f.key);
  }

  /** One `"key":value` and what follows it. */
  lemma FieldText(f: Field, after: string)
    ensures Quote(f.key) + ":" + Print(f.value) + after ==
            "\"" + (Escape(f.key) + "\"" + (":" + (Print(f.value) + after)))
  {
    var e, p := Escape(f.key), Print(f.value);
    assert Quote(f.key) == "\"" + e + "\"";
    assert "\"" + e + "\"" + ":" + p + after == "\"" + (e + "\"" + (":" + (p + after)));
  }

  /** The front of `ParseFields` on a printed field. */
  lemma ParseFieldHead(f: Field, after: string)
    requires ParseValue(Print(f.value) + after) == Some((f.value, after)) && Follows(after)
    ensures var text := Quote(f.key) + ":" + Print(f.value) + after;
            && text[0] == '\"'
            && ParseString(text[1..]) == Some((f.key, ":" + (Print(f.value) + after)))
            && (":" + (Print(f.value) + after))[1..] == Print(f.value) + after
  {
    FieldText(f, after);
    var value := Print(f.value) + after;
    var inner := Escape(f.key) + "\"" + (":" + value);
    AfterPrefix("\"", inner);
    AfterPrefix(":", value);
    ParseStringOf(f.key, ":" + value);
  }

  /** `ParseFields` from the results of its parts: the last field of an object. */
  lemma LastFieldStep(s: string, k: string, c: string, v: Value, t: string)
    requires s != "" && s[0] == '\"' && ParseString(s[1..]) == Some((k, c))
    requires c != "" && c[0] == ':' && ParseValue(c[1..]) == Some((v, t)) && t != "" && t[0] == '}'
    ensures ParseFields(s) == Some(([Field(k, v)], t[1..]))
  {
  }

  /** And a field with more fields behind it. */
  lemma OneMoreFieldStep(s: string, k: string, c: string, v: Value, t: string, fields: seq<Field>, rest: string)
    requires s != "" && s[0] == '\"' && ParseString(s[1..]) == Some((k, c))
    requires c != "" && c[0] == ':' && ParseValue(c[1..]) == Some((v, t)) && t != "" && t[0] == ','
    requires ParseFields(t[1..]) == Some((fields, rest))
    ensures ParseFields(s) == Some((AddField(k, v, fields), rest))
  {
  }

  /** The last field of an object. */
  lemma ParseLastField(f: Field, rest: string)
    requires ParseValue(Print(f.value) + ("}" + rest)) == Some((f.value, "}" + rest))
    ensures ParseFields(Quote(f.key) + ":" + Print(f.value) + ("}" + rest)) == Some(([f], rest))
  {
    var text := Quote(f.key) + ":" + Print(f.value) + ("}" + rest);
    ParseFieldHead(f, "}" + rest);
    AfterPrefix("}", rest);
    LastFieldStep(text, f.key, ":" + (Print(f.value) + ("}" + rest)), f.value, "}" + rest);
  }

  /** A field with more fields behind it. */
  lemma ParseOneMoreField(f: Field, more: string, fields: seq<Field>, rest: string)
    requires ParseValue(Print(f.value) + ("," + more)) == Some((f.value, "," + more))
    requires ParseFields(more) == Some((fields, rest)) && fields != [] && Less(f.key, fields[0].key)
    ensures ParseFields(Quote(f.key) + ":" + Print(f.value) + ("," + more)) == Some(([f] + fields, rest))
  {
    var text := Quote(f.key) + ":" + Print(f.value) + ("," + more);
    ParseFieldHead(f, "," + more);
    AfterPrefix(",", more);
    OneMoreFieldStep(text, f.key, ":" + (Print(f.value) + ("," + more)), f.value, "," + more, fields, rest);
    AddSmallest(f, fields);
  }

  lemma PrintFieldsText(fields: seq<Field>, rest: string)
    requires fields != []
    ensures var head := Quote(fields[0].key) + ":" + Print(fields[0].value);
            PrintFields(fields) + rest ==
            if |fields| == 1 then head + ("}" + rest) else head + ("," + (PrintFields(fields[1..]) + rest))
  {
    var head := Quote(fields[0].key) + ":" + Print(fields[0].value);
    if |fields| == 1 {
      Assoc(head, "}", rest);
    } else {
      Assoc(head, "," + PrintFields(fields[1..]), rest);
      Assoc(",", PrintFields(fields[1..]), rest);
    }
  }

  lemma {:induction false} ParseFieldsOf(fields: seq<Field>, rest: string)
    requires fields != [] && FieldsOk(fields)
    ensures ParseFields(PrintFields(fields) + rest) == Some((fields, rest))
    decreases fields, 0
  {
    var f := fields[0];
    PrintFieldsText(fields, rest);
    HeadTail(fields);
    if |fields| == 1 {
      ParseValueOf(f.value, "}" + rest);
      ParseLastField(f, rest);
    } else {
      var more := PrintFields(fields[1..]) + rest;
      ParseValueOf(f.value, "," + more);
      ParseFieldsOf(fields[1..], rest);
      ParseOneMoreField(f, more, fields[1..], rest);
    }
  }

  /** `json.loads(json.dumps(v))` is `v`. */
  lemma LoadsOfPrint(v: Value)
    requires WellFormed(v)
    ensures Loads(Print(v)) == Some(v)
  {
    ParseValueOf(v, "");
    assert Print(v) + "" == Print(v);
  }

  /** Canonical texts are equal only for equal values. */
  lemma PrintInjective(v: Value, w: Value)
    requires WellFormed(v) && WellFormed(w) && Print(v) == Print(w)
    ensures v == w
  {
    LoadsOfPrint(v);
    LoadsOfPrint(w);
  }

  // ---------------------------------------------------------------- what parsing yields

  lemma {:induction false} AddFieldOk(k: string, v: Value, fields: seq<Field>)
    requires WellFormed(v) && FieldsOk(fields)
    ensures FieldsOk(AddField(k, v, fields))
    ensures AddField(k, v, fields) != [] &&
            (AddField(k, v, fields)[0].key == k || (fields != [] && AddField(k, v, fields)[0].key == fields[0].key))
  {
    if fields == [] {
      assert FieldsOk([Field(k, v)][1..]);
    } else {
      var f := fields[0];
      LessTrichotomy(k, f.key);
      if Less(k, f.key) {
        assert ([Field(k, v)] + fields)[1..] == fields;
      } else if k != f.key {
        AddFieldOk(k, v, fields[1..]);
        var r := AddField(k, v, fields[1..]);
        assert ([f] + r)[1..] == r;
      }
    }
  }

  /** Whatever `json.loads` accepts is a value with sorted, distinct keys throughout. */
  lemma {:induction false} ParsedIsWellFormed(text: string)
    ensures ParseValue(text).Some? ==> WellFormed(ParseValue(text).value.0)
    decreases |text|, 2
  {
    var s := SkipSpace(text);
    if ParseValue(text).Some? && s != "" {
      if s[0] == '[' {
        ItemsAreWellFormed(SkipSpace(s[1..]));
      } else if s[0] == '{' {
        FieldsAreWellFormed(SkipSpace(s[1..]));
      }
    }
  }

  lemma {:induction false} ItemsAreWellFormed(text: string)
    ensures ParseItems(text).Some? ==>
              forall i :: 0 <= i < |ParseItems(text).value.0| ==> WellFormed(ParseItems(text).value.0[i])
    decreases |text|, 3
  {
    var v := ParseValue(text);
    ParsedIsWellFormed(text);
    if v.Some? {
      var t := SkipSpace(v.value.1);
      if t != "" && t[0] == ',' {
        ItemsAreWellFormed(t[1..]);
      }
    }
  }

  lemma {:induction false} FieldsAreWellFormed(text: string)
    ensures ParseFields(text).Some? ==> FieldsOk(ParseFields(text).value.0)
    decreases |text|, 3
  {
    var s := SkipSpace(text);
    if ParseFields(text).Some? {
      var k := ParseString(s[1..]);
      var c := SkipSpace(k.value.1);
      var v := ParseValue(c[1..]);
      ParsedIsWellFormed(c[1..]);
      var t := SkipSpace(v.value.1);
      if t[0] == ',' {
        FieldsAreWellFormed(t[1..]);
        AddFieldOk(k.value.0, v.value.0, ParseFields(t[1..]).value.0);
      } else {
        assert FieldsOk([Field(k.value.0, v.value.0)][1..]);
      }
    }
  }

  lemma LoadsIsWellFormed(text: string)
    ensures Loads(text).Some? ==> WellFormed(Loads(text).value)
  {
    ParsedIsWellFormed(text);
  }

  // ---------------------------------------------------------------- dictionaries

  /** `d.get(key)`. */
  function Lookup(fields: seq<Field>, key: string): (v: Option<Value>)
  {
    if fields == [] then None
    else if fields[0].key == key then Some(fields[0].value)
    else Lookup(fields[1..], key)
  }

  /** The dictionary after `d.pop(key, None)`. */
  function Without(fields: seq<Field>, key: string): (r: seq<Field>)
  {
    if fields == [] then []
    else if fields[0].key == key then Without(fields[1..], key)
    else [fields[0]] + Without(fields[1..], key)
  }

  /** Fields in increasing key order make a dictionary. */
  lemma {:induction false} SortedFieldsOk(fields: seq<Field>)
    requires forall i :: 0 <= i < |fields| ==> WellFormed(fields[i].value)
    requires forall i :: 0 <= i < |fields| - 1 ==> Less(fields[i].key, fields[i + 1].key)
    ensures FieldsOk(fields)
  {
    if fields != [] {
      SortedFieldsOk(fields[1..]);
    }
  }

  lemma {:induction false} LookupAbsent(fields: seq<Field>, key: string)
    requires forall i :: 0 <= i < |fields| ==> fields[i].key != key
    ensures Lookup(fields, key).None?
  {
    if fields != [] {
      LookupAbsent(fields[1..], key);
    }
  }

  lemma {:induction false} LookupBelow(fields: seq<Field>, key: string)
    requires FieldsOk(fields) && fields != [] && Less(key, fields[0].key)
    ensures Lookup(fields, key).None? && Without(fields, key) == fields
  {
    LessTrichotomy(key, fields[0].key);
    if |fields| > 1 {
      LessTransitive(key, fields[0].key, fields[1].key);
      LookupBelow(fields[1..], key);
      assert [fields[0]] + fields[1..] == fields;
    } else {
      assert fields[1..] == [] && [fields[0]] + [] == fields;
    }
  }

  /** Reading a key of a dictionary finds the one field with that key. */
  lemma {:induction false} LookupIff(fields: seq<Field>, key: string, v: Value)
    requires FieldsOk(fields)
    ensures Lookup(fields, key) == Some(v) <==> Field(key, v) in fields
  {
    if fields != [] {
      LookupIff(fields[1..], key, v);
      assert fields == [fields[0]] + fields[1..];
      if fields[0].key == key && |fields| > 1 {
        LookupBelow(fields[1..], key);
      }
    }
  }

  /** A dictionary is determined by what its keys say. */
  lemma {:induction false} LookupDetermines(a: seq<Field>, b: seq<Field>)
    requires FieldsOk(a) && FieldsOk(b) && forall k :: Lookup(a, k) == Lookup(b, k)
    ensures a == b
  {
    if a != [] && b != [] {
      LessTrichotomy(a[0].key, b[0].key);
      if Less(a[0].key, b[0].key) {
        LookupBelow(b, a[0].key);
      } else if Less(b[0].key, a[0].key) {
        LookupBelow(a, b[0].key);
      }
      assert a[0].key == b[0].key;
      forall k ensures Lookup(a[1..], k) == Lookup(b[1..], k) {
        assert Lookup(a, k) == Lookup(b, k);
        TailForgetsHead(a);
        TailForgetsHead(b);
      }
      LookupDetermines(a[1..], b[1..]);
      assert a == [a[0]] + a[1..] && b == [b[0]] + b[1..];
      assert Lookup(a, a[0].key) == Lookup(b, a[0].key);
    } else {
      assert a != [] ==> Lookup(a, a[0].key) == Lookup(b, a[0].key);
      assert b != [] ==> Lookup(a, b[0].key) == Lookup(b, b[0].key);
    }
  }

  lemma TailForgetsHead(fields: seq<Field>)
    requires FieldsOk(fields) && fields != []
    ensures Lookup(fields[1..], fields[0].key).None?
  {
    if |fields| > 1 {
      LookupBelow(fields[1..], fields[0].key);
    }
  }

  /** Adding a new key changes that key only, and popping it undoes the addition. */
  lemma {:induction false} AddNewField(fields: seq<Field>, key: string, v: Value)
    requires FieldsOk(fields) && Lookup(fields, key).None?
    ensures Lookup(AddField(key, v, fields), key) == Some(v)
    ensures Without(AddField(key, v, fields), key) == fields
  {
    if fields == [] {
      assert [Field(key, v)][1..] == [];
    } else {
      LessTrichotomy(key, fields[0].key);
      if Less(key, fields[0].key) {
        LookupBelow(fields, key);
        assert ([Field(key, v)] + fields)[1..] == fields;
      } else {
        AddNewField(fields[1..], key, v);
        var r := AddField(key, v, fields[1..]);
        assert ([fields[0]] + r)[1..] == r;
        assert [fields[0]] + fields[1..] == fields;
      }
    }
  }

  lemma {:induction false} AddFieldKeepsOthers(fields: seq<Field>, key: string, v: Value, other: string)
    requires other != key
    ensures Lookup(AddField(key, v, fields), other) == Lookup(fields, other)
  {
    if fields == [] {
      assert [Field(key, v)][1..] == [];
    } else if key != fields[0].key && !Less(key, fields[0].key) {
      AddFieldKeepsOthers(fields[1..], key, v, other);
      var r := AddField(key, v, fields[1..]);
      assert ([fields[0]] + r)[1..] == r;
    } else if key != fields[0].key {
      assert ([Field(key, v)] + fields)[1..] == fields;
    }
  }

  lemma {:induction false} WithoutOk(fields: seq<Field>, key: string)
    requires FieldsOk(fields)
    ensures FieldsOk(Without(fields, key))
    ensures Without(fields, key) != [] && fields != [] ==>
              Without(fields, key)[0].key == fields[0].key || Less(fields[0].key, Without(fields, key)[0].key)
  {
    if fields != [] {
      WithoutOk(fields[1..], key);
      var r := Without(fields[1..], key);
      if r != [] {
        if r[0].key != fields[1].key {
          LessTransitive(fields[0].key, fields[1].key, r[0].key);
        }
      }
      if fields[0].key != key {
        assert ([fields[0]] + r)[1..] == r;
      }
    }
  }

  /** A dictionary is determined by one key's value and the rest. */
  lemma {:induction false} RestoreField(fields: seq<Field>, key: string)
    requires FieldsOk(fields) && Lookup(fields, key).Some?
    ensures AddField(key, Lookup(fields, key).value, Without(fields, key)) == fields
  {
    var v := Lookup(fields, key).value;
    if fields[0].key == key {
      assert Without(fields, key) == fields[1..] by {
        if |fields| > 1 {
          LookupBelow(fields[1..], key);
        }
      }
      if |fields| > 1 {
        LessTrichotomy(key, fields[1].key);
      }
      assert [Field(key, v)] + fields[1..] == fields;
    } else {
      RestoreField(fields[1..], key);
      LessTrichotomy(key, fields[0].key);
      if Less(key, fields[0].key) {
        LookupBelow(fields, key);
      }
      var r := Without(fields[1..], key);
      assert ([fields[0]] + r)[1..] == r;
      assert [fields[0]] + fields[1..] == fields;
    }
  }
}
