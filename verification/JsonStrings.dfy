/** String literals: finding their end, decoding their escapes, and the encodings involved. */
module JsonStrings {
  import opened Common
  import opened JsonText

  // ---------- UTF-8 and UTF-16 ----------

  /** A code point that UTF-8 can encode (section 3 of RFC 3629): no surrogates, nothing past 0x10FFFF. */
  predicate IsScalar(u: int) {
    0 <= u < 0xD800 || 0xE000 <= u <= 0x10FFFF
  }

  function CharOf(b: int): char
    requires 0 <= b < 256
  {
    b as char
  }

  /** A continuation byte: the last six bits. */
  function Tail(u: int): char {
    CharOf(0x80 + u % 0x40)
  }

  function Utf8Length(u: int): nat {
    if u < 0x80 then 1 else if u < 0x800 then 2 else if u < 0x10000 then 3 else 4
  }

  /** The UTF-8 form of a code point. */
  function Utf8(u: int): (s: string)
    requires 0 <= u <= 0x10FFFF
    ensures |s| == Utf8Length(u)
  {
    var (u1, u2, u3) := (u / 0x40, u / 0x40 / 0x40, u / 0x40 / 0x40 / 0x40);
    if u < 0x80 then [CharOf(u)]
    else if u < 0x800 then [CharOf(0xC0 + u1), Tail(u)]
    else if u < 0x10000 then [CharOf(0xE0 + u2), Tail(u1), Tail(u)]
    else [CharOf(0xF0 + u3), Tail(u2), Tail(u1), Tail(u)]
  }

  predicate IsTail(c: char) {
    0x80 <= c as int < 0xC0
  }

  /** An independent reader of UTF-8: the first code point of `s` and the number of bytes it takes. Overlong
      forms, surrogates and stray bytes are refused. */
  function ReadUtf8(s: string): Option<(int, nat)> {
    if s == [] then None else
      var b := s[0] as int;
      if b < 0x80 then Some((b, 1))
      else if 0xC2 <= b < 0xE0 && |s| >= 2 && IsTail(s[1]) then
        Some(((b - 0xC0) * 0x40 + (s[1] as int - 0x80), 2))
      else if 0xE0 <= b < 0xF0 && |s| >= 3 && IsTail(s[1]) && IsTail(s[2]) then
        var u := (b - 0xE0) * 0x1000 + (s[1] as int - 0x80) * 0x40 + (s[2] as int - 0x80);
        if u >= 0x800 && IsScalar(u) then Some((u, 3)) else None
      else if 0xF0 <= b < 0xF5 && |s| >= 4 && IsTail(s[1]) && IsTail(s[2]) && IsTail(s[3]) then
        var u := (b - 0xF0) * 0x40000 + (s[1] as int - 0x80) * 0x1000 + (s[2] as int - 0x80) * 0x40 + (s[3] as int - 0x80);
        if 0x10000 <= u <= 0x10FFFF then Some((u, 4)) else None
      else None
  }

  lemma SixBits(u: nat)
    ensures u == u / 0x40 * 0x40 + u % 0x40 && 0 <= u % 0x40 < 0x40
  {
  }

  /** What the encoder writes, the reader reads back, whatever follows. */
  lemma Utf8RoundTrip(u: int, rest: string)
    requires IsScalar(u)
    ensures ReadUtf8(Utf8(u) + rest) == Some((u, Utf8Length(u)))
  {
    var s := Utf8(u) + rest;
    assert s[0] == Utf8(u)[0];
    if u >= 0x80 {
      assert s[1] == Utf8(u)[1];
      SixBits(u);
    }
    if u >= 0x800 {
      assert s[2] == Utf8(u)[2];
      SixBits(u / 0x40);
    }
    if u >= 0x10000 {
      assert s[3] == Utf8(u)[3];
      SixBits(u / 0x40 / 0x40);
    }
  }

  predicate IsHighSurrogate(w: int) {
    0xD800 <= w <= 0xDBFF
  }

  predicate IsLowSurrogate(w: int) {
    0xDC00 <= w <= 0xDFFF
  }

  /** The code point of a surrogate pair (section 2.2 of RFC 2781). */
  function JoinSurrogates(w1: int, w2: int): (u: int)
    requires IsHighSurrogate(w1) && IsLowSurrogate(w2)
    ensures 0x10000 <= u <= 0x10FFFF
  {
    0x10000 + (w1 - 0xD800) * 0x400 + (w2 - 0xDC00)
  }

  /** Joining undoes the splitting of section 2.1 of RFC 2781, and the other way round. */
  lemma SurrogatesRoundTrip(u: int, w1: int, w2: int)
    ensures 0x10000 <= u <= 0x10FFFF ==>
      var (a, b) := (0xD800 + (u - 0x10000) / 0x400, 0xDC00 + (u - 0x10000) % 0x400);
      IsHighSurrogate(a) && IsLowSurrogate(b) && JoinSurrogates(a, b) == u
    ensures IsHighSurrogate(w1) && IsLowSurrogate(w2) ==>
      var v := JoinSurrogates(w1, w2);
      w1 == 0xD800 + (v - 0x10000) / 0x400 && w2 == 0xDC00 + (v - 0x10000) % 0x400
  {
  }

  // ---------- hexadecimal ----------

  predicate IsHex(c: char) {
    '0' <= c <= '9' || 'A' <= c <= 'F' || 'a' <= c <= 'f'
  }

  function HexValue(c: char): (v: int)
    requires IsHex(c)
    ensures 0 <= v < 16
  {
    if '0' <= c <= '9' then c as int - '0' as int
    else if 'A' <= c <= 'F' then 10 + c as int - 'A' as int
    else 10 + c as int - 'a' as int
  }

  predicate IsHex4(h: string) {
    |h| == 4 && IsHex(h[0]) && IsHex(h[1]) && IsHex(h[2]) && IsHex(h[3])
  }

  /** Four hexadecimal digits; zero when one of them is none. */
  function Hex4(h: string): (v: int)
    requires |h| == 4
    ensures 0 <= v < 0x10000
  {
    if IsHex4(h) then HexValue(h[0]) * 0x1000 + HexValue(h[1]) * 0x100 + HexValue(h[2]) * 0x10 + HexValue(h[3]) else 0
  }

  // ---------- the end of a literal ----------

  /** The length of a literal's body, from just after the opening quote: up to the closing quote or the end
      of the input. A backslash hides the character after it, and must not be the last one. */
  function BodyLength(t: string): (n: Option<nat>)
    ensures n.Some? ==> n.value <= |t|
  {
    if t == [] || t[0] == '\"' || t[0] == '\0' then Some(0)
    else if t[0] == '\\' then
      if |t| < 2 || t[1] == '\0' then None else
        var n := BodyLength(t[2..]);
        if n.None? then None else Some(n.value + 2)
    else
      var n := BodyLength(t[1..]);
      if n.None? then None else Some(n.value + 1)
  }

  /** What the scan for the end counts: one for each character, one for each escaped character. */
  function Count(body: string): nat {
    if body == [] then 0
    else if body[0] == '\\' && |body| >= 2 then 1 + Count(body[2..])
    else 1 + Count(body[1..])
  }

  // ---------- decoding ----------

  /** The character a one-letter escape stands for. */
  function ShortEscape(e: char): Option<char> {
    match e
    case 'b' => Some(BACKSPACE)
    case 'f' => Some(FORM_FEED)
    case 'n' => Some('\n')
    case 'r' => Some('\r')
    case 't' => Some('\t')
    case '\"' => Some('\"')
    case '\\' => Some('\\')
    case '/' => Some('/')
    case _ => None
  }

  function Prefixed(s: string, tail: Option<string>): Option<string> {
    if tail.None? then None else Some(s + tail.value)
  }

  lemma PrefixNothing(tail: Option<string>)
    ensures Prefixed([], tail) == tail
  {
    if tail.Some? {
      assert [] + tail.value == tail.value;
    }
  }

  lemma PrefixTwice(a: string, b: string, tail: Option<string>)
    ensures Prefixed(a, Prefixed(b, tail)) == Prefixed(a + b, tail)
  {
    if tail.Some? {
      assert a + (b + tail.value) == a + b + tail.value;
    }
  }

  /** Decode the body of a literal. */
  function Decode(body: string): Option<string> {
    if body == [] then Some([])
    else if body[0] != '\\' then Prefixed([body[0]], Decode(body[1..]))
    else if |body| < 2 then None
    else if ShortEscape(body[1]).Some? then Prefixed([ShortEscape(body[1]).value], Decode(body[2..]))
    else if body[1] != 'u' || |body| < 6 then None
    else
      var uc := Hex4(body[2..6]);
      if IsLowSurrogate(uc) || uc == 0 then None
      else if !IsHighSurrogate(uc) then Prefixed(Utf8(uc), Decode(body[6..]))
      else if |body| < 12 || body[6] != '\\' || body[7] != 'u' then None
      else
        var uc2 := Hex4(body[8..12]);
        if !IsLowSurrogate(uc2) then None else Prefixed(Utf8(JoinSurrogates(uc, uc2)), Decode(body[12..]))
  }

  /** Hexadecimal digits are counted one by one. */
  lemma {:induction false} HexCounts(t: string, k: nat)
    requires k <= |t| && forall i :: 0 <= i < k ==> t[i] != '\\'
    ensures Count(t) == k + Count(t[k..])
  {
    if k > 0 {
      HexCounts(t[1..], k - 1);
      assert t[1..][k - 1..] == t[k..];
    } else {
      assert t[0..] == t;
    }
  }

  lemma UnitCounts(body: string)
    requires |body| >= 6 && body[0] == '\\' && body[1] == 'u' && Hex4(body[2..6]) != 0
    ensures Count(body) == 5 + Count(body[6..])
  {
    hide HexValue;
    var h := body[2..6];
    assert IsHex4(h) && body[2] == h[0] && body[3] == h[1] && body[4] == h[2] && body[5] == h[3];
    HexCounts(body[2..], 4);
    assert body[2..][4..] == body[6..];
  }

  /** The decoded bytes never outnumber what the scan counted. */
  lemma {:induction false} DecodeFits(body: string)
    ensures Decode(body).Some? ==> |Decode(body).value| <= Count(body)
    decreases |body|
  {
    hide HexValue, Utf8, JoinSurrogates;
    if body == [] {
    } else if body[0] != '\\' {
      DecodeFits(body[1..]);
    } else if |body| >= 2 {
      if ShortEscape(body[1]).Some? {
        DecodeFits(body[2..]);
      } else if body[1] == 'u' && |body| >= 6 && Hex4(body[2..6]) != 0 {
        DecodeFits(body[6..]);
        UnitCounts(body);
        if |body| >= 12 && body[6] == '\\' && body[7] == 'u' && Hex4(body[8..12]) != 0 {
          DecodeFits(body[12..]);
          assert body[6..][2..6] == body[8..12] && body[6..][6..] == body[12..];
          UnitCounts(body[6..]);
        }
      }
    }
  }

  // ---------- which literals are accepted ----------

  /** The pieces of a literal. A `Unit` is one UTF-16 unit that stands alone, a `Pair` a surrogate pair, both
      spelled in hexadecimal. */
  datatype Token =
    | Plain(c: char)
    | Short(letter: char)
    | Unit(hex: string)
    | Pair(high: string, low: string)

  predicate Legal(t: Token) {
    match t
    case Plain(c) => c != '\\'
    case Short(letter) => ShortEscape(letter).Some?
    case Unit(hex) => IsHex4(hex) && IsScalar(Hex4(hex)) && Hex4(hex) != 0
    case Pair(high, low) => IsHex4(high) && IsHighSurrogate(Hex4(high)) && IsHex4(low) && IsLowSurrogate(Hex4(low))
  }

  function Spell(t: Token): string {
    match t
    case Plain(c) => [c]
    case Short(letter) => ['\\', letter]
    case Unit(hex) => "\\u" + hex
    case Pair(high, low) => "\\u" + high + "\\u" + low
  }

  function Meaning(t: Token): string
    requires Legal(t)
  {
    match t
    case Plain(c) => [c]
    case Short(letter) => [ShortEscape(letter).value]
    case Unit(hex) => Utf8(Hex4(hex))
    case Pair(high, low) => Utf8(JoinSurrogates(Hex4(high), Hex4(low)))
  }

  predicate AllLegal(ts: seq<Token>) {
    forall i :: 0 <= i < |ts| ==> Legal(ts[i])
  }

  function SpellAll(ts: seq<Token>): string {
    if ts == [] then [] else Spell(ts[0]) + SpellAll(ts[1..])
  }

  function MeaningOfAll(ts: seq<Token>): string
    requires AllLegal(ts)
  {
    if ts == [] then [] else Meaning(ts[0]) + MeaningOfAll(ts[1..])
  }

  lemma DecodeToken(t: Token, rest: string)
    requires Legal(t)
    ensures Decode(Spell(t) + rest) == Prefixed(Meaning(t), Decode(rest))
  {
    var body := Spell(t) + rest;
    match t
    case Plain(c) => assert body[1..] == rest;
    case Short(letter) => assert body[2..] == rest;
    case Unit(hex) => assert body[2..6] == hex && body[6..] == rest;
    case Pair(high, low) => assert body[2..6] == high && body[8..12] == low && body[12..] == rest;
  }

  /** Every sequence of legal pieces is accepted, and means what its pieces mean. */
  lemma {:induction false} SpelledIsDecoded(ts: seq<Token>)
    requires AllLegal(ts)
    ensures Decode(SpellAll(ts)) == Some(MeaningOfAll(ts))
  {
    if ts != [] {
      DecodeToken(ts[0], SpellAll(ts[1..]));
      SpelledIsDecoded(ts[1..]);
    }
  }

  /** Nothing else is accepted. */
  lemma {:induction false} DecodedIsSpelled(body: string) returns (ts: seq<Token>)
    requires Decode(body).Some?
    ensures AllLegal(ts) && SpellAll(ts) == body && Decode(body) == Some(MeaningOfAll(ts))
    decreases |body|
  {
    if body == [] {
      ts := [];
    } else {
      var t := FirstToken(body);
      var n := |Spell(t)|;
      DecodeToken(t, body[n..]);
      assert body == Spell(t) + body[n..];
      var rest := DecodedIsSpelled(body[n..]);
      ts := [t] + rest;
      assert ts[1..] == rest;
    }
  }

  lemma FirstToken(body: string) returns (t: Token)
    requires Decode(body).Some? && body != []
    ensures Legal(t) && Spell(t) <= body && |Spell(t)| > 0
    ensures Decode(body[|Spell(t)|..]).Some?
  {
    if body[0] != '\\' {
      t := Plain(body[0]);
    } else if ShortEscape(body[1]).Some? {
      t := Short(body[1]);
    } else if !IsHighSurrogate(Hex4(body[2..6])) {
      t := Unit(body[2..6]);
      assert body[..6] == "\\u" + body[2..6];
    } else {
      t := Pair(body[2..6], body[8..12]);
      assert body[..12] == "\\u" + body[2..6] + "\\u" + body[8..12];
    }
  }
}
