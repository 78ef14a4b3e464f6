/**
 The serialised form of a category list: the compact JSON text that
 `JSON.stringify` writes for an array of `{id, name, subcategories}` objects,
 and a decoder that reads exactly that text back. Decoding fails on any other
 input.
 */
module Codec {
  import opened Wrappers
  import opened Categories

  // ---------------------------------------------------------------------------
  // Strings, escaped as JSON.stringify escapes them.

  /** The one-letter escapes: `\"`, `\\`, `\b`, `\t`, `\n`, `\f`, `\r`. */
  function ShortEscape(c: char): Option<char> {
    if c == '"' then Some('"')
    else if c == '\\' then Some('\\')
    else if c as int == 0x08 then Some('b')
    else if c as int == 0x09 then Some('t')
    else if c as int == 0x0A then Some('n')
    else if c as int == 0x0C then Some('f')
    else if c as int == 0x0D then Some('r')
    else None
  }

  /** The character a one-letter escape stands for. */
  function Unescape(e: char): (r: Option<char>)
    ensures forall c :: r == Some(c) <==> ShortEscape(c) == Some(e)
  {
    if e == '"' then Some('"')
    else if e == '\\' then Some('\\')
    else if e == 'b' then Some(0x08 as char)
    else if e == 't' then Some(0x09 as char)
    else if e == 'n' then Some(0x0A as char)
    else if e == 'f' then Some(0x0C as char)
    else if e == 'r' then Some(0x0D as char)
    else None
  }

  predicate IsHexDigit(c: char) {
    '0' <= c <= '9' || 'a' <= c <= 'f'
  }

  /** Lower-case hexadecimal digit, as in `\u001f`. */
  function HexDigit(n: nat): (c: char)
    requires n < 16
    ensures IsHexDigit(c)
  {
    if n < 10 then ('0' as int + n) as char else ('a' as int + n - 10) as char
  }

  function HexValue(c: char): (n: nat)
    requires IsHexDigit(c)
    ensures n < 16 && HexDigit(n) == c
  {
    if c <= '9' then c as int - '0' as int else c as int - 'a' as int + 10
  }

  lemma HexValueOfDigit(n: nat)
    requires n < 16
    ensures HexValue(HexDigit(n)) == n
  {
  }

  /** A control character without a one-letter escape is written `\u00XX`. */
  predicate NeedsUnicodeEscape(c: char) {
    c as int < 0x20 && ShortEscape(c).None?
  }

  function EscapeChar(c: char): string {
    match ShortEscape(c)
    case Some(e) => ['\\', e]
    case None =>
      if c as int < 0x20 then ['\\', 'u', '0', '0', HexDigit(c as int / 16), HexDigit(c as int % 16)]
      else [c]
  }

  function Escape(t: string): string {
    if t == [] then [] else EscapeChar(t[0]) + Escape(t[1..])
  }

  function EncodeString(t: string): string {
    ['"'] + Escape(t) + ['"']
  }

  /** Puts `c` in front of a parsed string. */
  function Prepend(c: char, r: Option<(string, string)>): (r': Option<(string, string)>)
    ensures r'.Some? <==> r.Some?
    ensures r.Some? ==> r'.value == ([c] + r.value.0, r.value.1)
  {
    match r
    case None => None
    case Some((t, rest)) => Some(([c] + t, rest))
  }

  /** The code of the `\u00XX` escape at the head of `s`, if it is one the encoder writes. */
  function UnicodeEscapeAt(s: string): (r: Option<char>)
    ensures r.Some? ==> |s| >= 6 && NeedsUnicodeEscape(r.value)
  {
    if |s| >= 6 && s[0] == '\\' && s[1] == 'u' && s[2] == '0' && s[3] == '0'
       && (s[4] == '0' || s[4] == '1') && IsHexDigit(s[5])
       && NeedsUnicodeEscape((HexValue(s[4]) * 16 + HexValue(s[5])) as char)
    then Some((HexValue(s[4]) * 16 + HexValue(s[5])) as char)
    else None
  }

  /** Reads a string body up to its closing quote; returns the text and what follows. */
  function ParseBody(s: string): (r: Option<(string, string)>)
    ensures r.Some? ==> |r.value.1| < |s|
    decreases |s|
  {
    if s == [] then None
    else if s[0] == '"' then Some(([], s[1..]))
    else if s[0] == '\\' then
      if |s| >= 2 && Unescape(s[1]).Some? then Prepend(Unescape(s[1]).value, ParseBody(s[2..]))
      else if UnicodeEscapeAt(s).Some? then Prepend(UnicodeEscapeAt(s).value, ParseBody(s[6..]))
      else None
    else if s[0] as int < 0x20 then None
    else Prepend(s[0], ParseBody(s[1..]))
  }

  function ParseString(s: string): (r: Option<(string, string)>)
    ensures r.Some? ==> |r.value.1| < |s|
  {
    if s != [] && s[0] == '"' then ParseBody(s[1..]) else None
  }

  lemma EscapeCharRead(c: char, u: string)
    ensures ParseBody(EscapeChar(c) + u) == Prepend(c, ParseBody(u))
  {
    var s := EscapeChar(c) + u;
    match ShortEscape(c)
    case Some(e) =>
      assert s[0] == '\\' && s[1] == e && s[2..] == u;
    case None =>
      if c as int < 0x20 {
        var n := c as int;
        assert s[..6] == EscapeChar(c) && s[6..] == u;
        HexValueOfDigit(n / 16);
        HexValueOfDigit(n % 16);
        assert Unescape('u').None?;
        assert UnicodeEscapeAt(s) == Some(c);
      } else {
        assert s[0] == c && s[1..] == u;
      }
  }

  lemma {:induction false} BodyRoundTrip(t: string, rest: string)
    ensures ParseBody(Escape(t) + ['"'] + rest) == Some((t, rest))
    decreases |t|
  {
    if t == [] {
      assert Escape(t) + ['"'] + rest == ['"'] + rest;
    } else {
      var u := Escape(t[1..]) + ['"'] + rest;
      assert Escape(t) + ['"'] + rest == EscapeChar(t[0]) + u;
      EscapeCharRead(t[0], u);
      BodyRoundTrip(t[1..], rest);
      assert [t[0]] + t[1..] == t;
    }
  }

  /** A `\u00XX` escape the decoder accepts is the one the encoder writes. */
  lemma UnicodeEscapeCanonical(s: string)
    requires UnicodeEscapeAt(s).Some?
    ensures EscapeChar(UnicodeEscapeAt(s).value) == s[..6]
  {
    var c := UnicodeEscapeAt(s).value;
    var n := HexValue(s[4]) * 16 + HexValue(s[5]);
    assert c as int == n;
    assert n / 16 == HexValue(s[4]) && n % 16 == HexValue(s[5]);
  }

  /** One decoded character and the rest of the body, put back together. */
  lemma PrependCanonical(s: string, k: nat, c: char, u: string, rest: string)
    requires 0 < k <= |s| && EscapeChar(c) == s[..k]
    requires s[k..] == Escape(u) + ['"'] + rest
    ensures s == Escape([c] + u) + ['"'] + rest
  {
    var t := [c] + u;
    assert t[0] == c && t[1..] == u;
    calc {
      s;
      s[..k] + s[k..];
      EscapeChar(c) + (Escape(u) + ['"'] + rest);
      (EscapeChar(c) + Escape(u)) + ['"'] + rest;
    }
  }

  lemma {:induction false} BodyCanonical(s: string)
    ensures ParseBody(s).Some? ==> s == Escape(ParseBody(s).value.0) + ['"'] + ParseBody(s).value.1
    decreases |s|
  {
    if ParseBody(s).Some? && s[0] != '"' {
      var k: nat, c: char;
      if s[0] == '\\' && |s| >= 2 && Unescape(s[1]).Some? {
        k, c := 2, Unescape(s[1]).value;
        assert EscapeChar(c) == s[..2];
      } else if s[0] == '\\' {
        k, c := 6, UnicodeEscapeAt(s).value;
        UnicodeEscapeCanonical(s);
      } else {
        k, c := 1, s[0];
        assert EscapeChar(c) == s[..1];
      }
      assert ParseBody(s) == Prepend(c, ParseBody(s[k..]));
      BodyCanonical(s[k..]);
      var (u, rest) := ParseBody(s[k..]).value;
      PrependCanonical(s, k, c, u, rest);
    }
  }

  /** A string is read back from its encoding, whatever follows it. */
  lemma StringRoundTrip(t: string, rest: string)
    ensures ParseString(EncodeString(t) + rest) == Some((t, rest))
  {
    var s := EncodeString(t) + rest;
    assert s[0] == '"' && s[1..] == Escape(t) + ['"'] + rest;
    BodyRoundTrip(t, rest);
  }

  /** The string parser accepts only text the encoder writes. */
  lemma StringCanonical(s: string)
    ensures ParseString(s).Some? ==> s == EncodeString(ParseString(s).value.0) + ParseString(s).value.1
  {
    if ParseString(s).Some? {
      BodyCanonical(s[1..]);
      assert s == ['"'] + s[1..];
    }
  }

  // ---------------------------------------------------------------------------
  // Arrays: `[` items separated by `,` `]`, with no white space.

  function Join<T>(xs: seq<T>, enc: T -> string): string {
    if xs == [] then []
    else if |xs| == 1 then enc(xs[0])
    else enc(xs[0]) + [','] + Join(xs[1..], enc)
  }

  function EncodeArray<T>(xs: seq<T>, enc: T -> string): string {
    ['['] + Join(xs, enc) + [']']
  }

  /** A parser that succeeds always consumes something. */
  ghost predicate Consumes<T>(parse: string -> Option<(T, string)>) {
    forall s :: parse(s).Some? ==> |parse(s).value.1| < |s|
  }

  /** `parse` reads back what `enc` writes, leaving whatever follows. */
  ghost predicate ReadsBack<T(!new)>(enc: T -> string, parse: string -> Option<(T, string)>) {
    forall x, rest :: parse(enc(x) + rest) == Some((x, rest))
  }

  /** `parse` accepts nothing but what `enc` writes. */
  ghost predicate OnlyReads<T>(enc: T -> string, parse: string -> Option<(T, string)>) {
    forall s :: parse(s).Some? ==> s == enc(parse(s).value.0) + parse(s).value.1
  }

  /** An item's encoding cannot be mistaken for the end of the array. */
  ghost predicate NotClosing<T(!new)>(enc: T -> string) {
    forall x :: enc(x) != [] && enc(x)[0] != ']'
  }

  /** Reads one or more items and the closing `]`. */
  function ParseItems<T>(s: string, parse: string -> Option<(T, string)>): (r: Option<(seq<T>, string)>)
    requires Consumes(parse)
    ensures r.Some? ==> |r.value.1| < |s|
    decreases |s|
  {
    match parse(s)
    case None => None
    case Some((x, rest)) =>
      if rest != [] && rest[0] == ',' then
        match ParseItems(rest[1..], parse)
        case None => None
        case Some((xs, rest')) => Some(([x] + xs, rest'))
      else if rest != [] && rest[0] == ']' then Some(([x], rest[1..]))
      else None
  }

  function ParseArray<T>(s: string, parse: string -> Option<(T, string)>): (r: Option<(seq<T>, string)>)
    requires Consumes(parse)
    ensures r.Some? ==> |r.value.1| < |s|
  {
    if s == [] || s[0] != '[' then None
    else if |s| >= 2 && s[1] == ']' then Some(([], s[2..]))
    else ParseItems(s[1..], parse)
  }

  lemma {:induction false} ItemsRoundTrip<T(!new)>(xs: seq<T>, enc: T -> string, parse: string -> Option<(T, string)>, rest: string)
    requires Consumes(parse) && ReadsBack(enc, parse)
    requires xs != []
    ensures ParseItems(Join(xs, enc) + [']'] + rest, parse) == Some((xs, rest))
    decreases |xs|
  {
    var s := Join(xs, enc) + [']'] + rest;
    if |xs| == 1 {
      assert s == enc(xs[0]) + ([']'] + rest);
      assert parse(s) == Some((xs[0], [']'] + rest));
      assert ([']'] + rest)[0] == ']' && ([']'] + rest)[1..] == rest;
      assert [xs[0]] == xs;
    } else {
      var tail := Join(xs[1..], enc) + [']'] + rest;
      assert s == enc(xs[0]) + ([','] + tail);
      assert parse(s) == Some((xs[0], [','] + tail));
      assert ([','] + tail)[1..] == tail;
      ItemsRoundTrip(xs[1..], enc, parse, rest);
      assert [xs[0]] + xs[1..] == xs;
    }
  }

  lemma ArrayRoundTrip<T(!new)>(xs: seq<T>, enc: T -> string, parse: string -> Option<(T, string)>, rest: string)
    requires Consumes(parse) && ReadsBack(enc, parse) && NotClosing(enc)
    ensures ParseArray(EncodeArray(xs, enc) + rest, parse) == Some((xs, rest))
  {
    var s := EncodeArray(xs, enc) + rest;
    if xs == [] {
      assert s == ['[', ']'] + rest;
    } else {
      assert Join(xs, enc)[0] == enc(xs[0])[0] != ']';
      assert s[0] == '[' && s[1] == Join(xs, enc)[0];
      assert s[1..] == Join(xs, enc) + [']'] + rest;
      ItemsRoundTrip(xs, enc, parse, rest);
    }
  }

  lemma {:induction false} ItemsCanonical<T>(s: string, enc: T -> string, parse: string -> Option<(T, string)>)
    requires Consumes(parse) && OnlyReads(enc, parse)
    ensures ParseItems(s, parse).Some? ==>
              var (xs, rest) := ParseItems(s, parse).value;
              xs != [] && s == Join(xs, enc) + [']'] + rest
    decreases |s|
  {
    if ParseItems(s, parse).Some? {
      var (x, after) := parse(s).value;
      assert s == enc(x) + after;
      if after[0] == ',' {
        ItemsCanonical(after[1..], enc, parse);
        var (xs, rest) := ParseItems(after[1..], parse).value;
        assert after == [','] + after[1..];
        assert ParseItems(s, parse).value.0 == [x] + xs;
        assert ([x] + xs)[1..] == xs;
      } else {
        assert after == [']'] + after[1..];
      }
    }
  }

  lemma ArrayCanonical<T>(s: string, enc: T -> string, parse: string -> Option<(T, string)>)
    requires Consumes(parse) && OnlyReads(enc, parse)
    ensures ParseArray(s, parse).Some? ==>
              s == EncodeArray(ParseArray(s, parse).value.0, enc) + ParseArray(s, parse).value.1
  {
    if ParseArray(s, parse).Some? {
      if s[1] == ']' {
        assert s == ['[', ']'] + s[2..];
      } else {
        ItemsCanonical(s[1..], enc, parse);
        assert s == ['['] + s[1..];
      }
    }
  }

  lemma StringConsumes()
    ensures Consumes(ParseString)
  {
  }

  lemma StringCodec()
    ensures Consumes(ParseString)
    ensures ReadsBack(EncodeString, ParseString)
    ensures OnlyReads(EncodeString, ParseString)
    ensures NotClosing(EncodeString)
  {
    forall t, rest ensures ParseString(EncodeString(t) + rest) == Some((t, rest)) {
      StringRoundTrip(t, rest);
    }
    forall s ensures ParseString(s).Some? ==> s == EncodeString(ParseString(s).value.0) + ParseString(s).value.1 {
      StringCanonical(s);
    }
  }

  // ---------------------------------------------------------------------------
  // Categories: `{"id":…,"name":…,"subcategories":[…]}`, keys in that order.

  const IdKey: string := "{\"id\":"
  const NameKey: string := ",\"name\":"
  const SubcategoriesKey: string := ",\"subcategories\":"
  const Close: string := "}"

  /** `"key":"value"` with the key's punctuation, as the object holds it. */
  function EncodeField(key: string, t: string): string {
    key + EncodeString(t)
  }

  function EncodeSubcategories(ss: seq<string>): string {
    SubcategoriesKey + EncodeArray(ss, EncodeString)
  }

  function EncodeCategory(c: Category): string {
    EncodeField(IdKey, c.id) + (EncodeField(NameKey, c.name) + (EncodeSubcategories(c.subcategories) + Close))
  }

  /** Consumes the literal `lit` at the head of `s`. */
  function Literal(lit: string, s: string): (r: Option<string>)
    ensures r.Some? ==> s == lit + r.value
  {
    if lit <= s then Some(s[|lit|..]) else None
  }

  function ParseField(key: string, s: string): (r: Option<(string, string)>)
    ensures r.Some? ==> |r.value.1| < |s|
  {
    var after :- Literal(key, s);
    ParseString(after)
  }

  function ParseSubcategories(s: string): (r: Option<(seq<string>, string)>)
    ensures r.Some? ==> |r.value.1| < |s|
  {
    StringConsumes();
    var after :- Literal(SubcategoriesKey, s);
    ParseArray(after, ParseString)
  }

  function ParseCategory(s: string): (r: Option<(Category, string)>)
    ensures r.Some? ==> |r.value.1| < |s|
  {
    var id :- ParseField(IdKey, s);
    var name :- ParseField(NameKey, id.1);
    var subs :- ParseSubcategories(name.1);
    var rest :- Literal(Close, subs.1);
    Some((Category(id.0, name.0, subs.0), rest))
  }

  lemma LiteralRead(lit: string, u: string)
    ensures Literal(lit, lit + u) == Some(u)
  {
    assert lit <= lit + u && (lit + u)[|lit|..] == u;
  }

  lemma FieldRoundTrip(key: string, t: string, rest: string)
    ensures ParseField(key, EncodeField(key, t) + rest) == Some((t, rest))
  {
    assert EncodeField(key, t) + rest == key + (EncodeString(t) + rest);
    LiteralRead(key, EncodeString(t) + rest);
    StringRoundTrip(t, rest);
  }

  lemma FieldCanonical(key: string, s: string)
    ensures ParseField(key, s).Some? ==> s == EncodeField(key, ParseField(key, s).value.0) + ParseField(key, s).value.1
  {
    if ParseField(key, s).Some? {
      StringCanonical(Literal(key, s).value);
    }
  }

  lemma SubcategoriesRoundTrip(ss: seq<string>, rest: string)
    ensures ParseSubcategories(EncodeSubcategories(ss) + rest) == Some((ss, rest))
  {
    StringCodec();
    assert EncodeSubcategories(ss) + rest == SubcategoriesKey + (EncodeArray(ss, EncodeString) + rest);
    LiteralRead(SubcategoriesKey, EncodeArray(ss, EncodeString) + rest);
    ArrayRoundTrip(ss, EncodeString, ParseString, rest);
  }

  lemma SubcategoriesCanonical(s: string)
    ensures ParseSubcategories(s).Some? ==>
              s == EncodeSubcategories(ParseSubcategories(s).value.0) + ParseSubcategories(s).value.1
  {
    if ParseSubcategories(s).Some? {
      StringCodec();
      ArrayCanonical(Literal(SubcategoriesKey, s).value, EncodeString, ParseString);
    }
  }

  lemma CategoryRoundTrip(c: Category, rest: string)
    ensures ParseCategory(EncodeCategory(c) + rest) == Some((c, rest))
  {
    var u2 := Close + rest;
    var u1 := EncodeSubcategories(c.subcategories) + u2;
    var u0 := EncodeField(NameKey, c.name) + u1;
    assert EncodeCategory(c) + rest == EncodeField(IdKey, c.id) + u0;
    FieldRoundTrip(IdKey, c.id, u0);
    FieldRoundTrip(NameKey, c.name, u1);
    SubcategoriesRoundTrip(c.subcategories, u2);
    LiteralRead(Close, rest);
  }

  lemma CategoryCanonical(s: string)
    ensures ParseCategory(s).Some? ==> s == EncodeCategory(ParseCategory(s).value.0) + ParseCategory(s).value.1
  {
    if ParseCategory(s).Some? {
      var id := ParseField(IdKey, s).value;
      var name := ParseField(NameKey, id.1).value;
      var subs := ParseSubcategories(name.1).value;
      var rest := Literal(Close, subs.1).value;
      FieldCanonical(IdKey, s);
      FieldCanonical(NameKey, id.1);
      SubcategoriesCanonical(name.1);
      assert s == EncodeField(IdKey, id.0) + (EncodeField(NameKey, name.0)
                   + (EncodeSubcategories(subs.0) + (Close + rest)));
    }
  }

  lemma CategoryCodec()
    ensures Consumes(ParseCategory)
    ensures ReadsBack(EncodeCategory, ParseCategory)
    ensures OnlyReads(EncodeCategory, ParseCategory)
    ensures NotClosing(EncodeCategory)
  {
    forall c, rest ensures ParseCategory(EncodeCategory(c) + rest) == Some((c, rest)) {
      CategoryRoundTrip(c, rest);
    }
    forall s ensures ParseCategory(s).Some? ==> s == EncodeCategory(ParseCategory(s).value.0) + ParseCategory(s).value.1 {
      CategoryCanonical(s);
    }
    forall c ensures EncodeCategory(c) != [] && EncodeCategory(c)[0] != ']' {
      assert EncodeCategory(c)[0] == EncodeField(IdKey, c.id)[0] == IdKey[0];
    }
  }

  // ---------------------------------------------------------------------------
  // The stored value.

  /** `JSON.stringify(categories)`. */
  function Encode(cs: seq<Category>): (s: string)
    ensures |s| >= 2 && s[0] == '[' && s[|s| - 1] == ']'
  {
    EncodeArray(cs, EncodeCategory)
  }

  /** `JSON.parse(raw)` for this format; `None` where parsing throws. */
  function Decode(s: string): (r: Option<seq<Category>>)
    ensures r.Some? ==> s == Encode(r.value)
  {
    CategoryCodec();
    ArrayCanonical(s, EncodeCategory, ParseCategory);
    match ParseArray(s, ParseCategory)
    case Some((cs, rest)) => if rest == [] then Some(cs) else None
    case None => None
  }

  /** What `persist` writes, a later load reads back. */
  lemma DecodeEncode(cs: seq<Category>)
    ensures Decode(Encode(cs)) == Some(cs)
  {
    CategoryCodec();
    ArrayRoundTrip(cs, EncodeCategory, ParseCategory, []);
    assert Encode(cs) + [] == Encode(cs);
  }

  /** Decoding succeeds on exactly the encodings, and gives back what was encoded. */
  lemma DecodeExactly(s: string, cs: seq<Category>)
    ensures Decode(s) == Some(cs) <==> s == Encode(cs)
  {
    CategoryCodec();
    ArrayCanonical(s, EncodeCategory, ParseCategory);
    if s == Encode(cs) {
      DecodeEncode(cs);
    }
  }
}
