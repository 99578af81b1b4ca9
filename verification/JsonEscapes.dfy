/** What the escapes of a literal stand for, against a writer of its own: hexadecimal digits from the two tables, in
    any mix of cases, and the table of the short escapes. */
module JsonEscapes {
  import opened Common
  import opened JsonText
  import opened JsonStrings
  import JsonRoundTrip

  // ---------- hexadecimal ----------

  const LOWER := "0123456789abcdef"
  const UPPER := "0123456789ABCDEF"

  function HexDigit(n: int, upper: bool): char
    requires 0 <= n < 16
  {
    if upper then UPPER[n] else LOWER[n]
  }

  /** Four digits; for each of them, whether it is taken from the table of capitals. */
  function WriteHex4(u: int, upper: seq<bool>): (h: string)
    requires 0 <= u < 0x10000 && |upper| == 4
    ensures |h| == 4
  {
    [HexDigit(u / 0x1000, upper[0]), HexDigit(u / 0x100 % 0x10, upper[1]), HexDigit(u / 0x10 % 0x10, upper[2]),
     HexDigit(u % 0x10, upper[3])]
  }

  predicate IsCapital(c: char) {
    'A' <= c <= 'F'
  }

  /** The digits are those of the two tables. */
  lemma HexIsListed(c: char)
    ensures IsHex(c) <==> c in LOWER || c in UPPER
    ensures IsHex(c) ==> c == HexDigit(HexValue(c), IsCapital(c))
  {
    if IsHex(c) {
      assert c == HexDigit(HexValue(c), IsCapital(c));
    }
  }

  lemma DigitIsRead(n: int, upper: bool)
    requires 0 <= n < 16
    ensures IsHex(HexDigit(n, upper)) && HexValue(HexDigit(n, upper)) == n
  {
  }

  lemma NextDigit(u: int)
    requires 0 <= u
    ensures u / 0x100 == u / 0x10 / 0x10 && u == u / 0x10 * 0x10 + u % 0x10
  {
  }

  lemma FourDigits(u: int)
    requires 0 <= u < 0x10000
    ensures u == u / 0x1000 * 0x1000 + u / 0x100 % 0x10 * 0x100 + u / 0x10 % 0x10 * 0x10 + u % 0x10
  {
    NextDigit(u);
    NextDigit(u / 0x10);
    NextDigit(u / 0x100);
    assert u / 0x1000 == u / 0x100 / 0x10;
  }

  /** Reading undoes writing, and nothing else is read. */
  lemma HexRoundTrip(u: int, upper: seq<bool>)
    requires 0 <= u < 0x10000 && |upper| == 4
    ensures IsHex4(WriteHex4(u, upper)) && Hex4(WriteHex4(u, upper)) == u
  {
    hide HexDigit, HexValue;
    DigitIsRead(u / 0x1000, upper[0]);
    DigitIsRead(u / 0x100 % 0x10, upper[1]);
    DigitIsRead(u / 0x10 % 0x10, upper[2]);
    DigitIsRead(u % 0x10, upper[3]);
    FourDigits(u);
  }

  lemma HexIsWritten(h: string) returns (upper: seq<bool>)
    requires IsHex4(h)
    ensures |upper| == 4 && h == WriteHex4(Hex4(h), upper)
  {
    hide HexDigit, HexValue, IsCapital;
    HexIsListed(h[0]);
    HexIsListed(h[1]);
    HexIsListed(h[2]);
    HexIsListed(h[3]);
    upper := [IsCapital(h[0]), IsCapital(h[1]), IsCapital(h[2]), IsCapital(h[3])];
    var u := Hex4(h);
    Places(u, HexValue(h[0]), HexValue(h[1]), HexValue(h[2]), HexValue(h[3]));
    var w := WriteHex4(u, upper);
    assert w[0] == h[0] && w[1] == h[1] && w[2] == h[2] && w[3] == h[3];
  }

  lemma Divided(p: int, d: int)
    requires 0 <= d < 16
    ensures (p * 16 + d) / 16 == p && (p * 16 + d) % 16 == d
  {
  }

  lemma Places(u: int, a: int, b: int, c: int, d: int)
    requires 0 <= a < 16 && 0 <= b < 16 && 0 <= c < 16 && 0 <= d < 16
    requires u == a * 0x1000 + b * 0x100 + c * 0x10 + d
    ensures u / 0x1000 == a && u / 0x100 % 0x10 == b && u / 0x10 % 0x10 == c && u % 0x10 == d
  {
    var ab := a * 16 + b;
    var abc := ab * 16 + c;
    Divided(a, b);
    Divided(ab, c);
    Divided(abc, d);
    NextDigit(u);
    NextDigit(abc);
    assert u / 0x100 == ab;
    assert u / 0x1000 == ab / 0x10;
  }

  // ---------- unicode escapes ----------

  /** A code point spelled by one escape. */
  lemma UnitIsDecoded(u: int, upper: seq<bool>, rest: string)
    requires 0 < u < 0x10000 && IsScalar(u) && |upper| == 4
    ensures Decode("\\u" + WriteHex4(u, upper) + rest) == Prefixed(Utf8(u), Decode(rest))
  {
    hide WriteHex4, Hex4, Utf8, Decode;
    HexRoundTrip(u, upper);
    DecodeToken(Unit(WriteHex4(u, upper)), rest);
  }

  function HighOf(u: int): int
    requires 0x10000 <= u <= 0x10FFFF
  {
    0xD800 + (u - 0x10000) / 0x400
  }

  function LowOf(u: int): int
    requires 0x10000 <= u <= 0x10FFFF
  {
    0xDC00 + (u - 0x10000) % 0x400
  }

  function WritePair(u: int, upper1: seq<bool>, upper2: seq<bool>): string
    requires 0x10000 <= u <= 0x10FFFF && |upper1| == 4 && |upper2| == 4
  {
    "\\u" + WriteHex4(HighOf(u), upper1) + "\\u" + WriteHex4(LowOf(u), upper2)
  }

  /** A code point past 0xFFFF, spelled by the two surrogates of section 2.1 of RFC 2781. */
  lemma PairIsDecoded(u: int, upper1: seq<bool>, upper2: seq<bool>, rest: string)
    requires 0x10000 <= u <= 0x10FFFF && |upper1| == 4 && |upper2| == 4
    ensures Decode(WritePair(u, upper1, upper2) + rest) == Prefixed(Utf8(u), Decode(rest))
  {
    hide WriteHex4, Hex4, Utf8, Decode;
    SurrogatesRoundTrip(u, 0, 0);
    HexRoundTrip(HighOf(u), upper1);
    HexRoundTrip(LowOf(u), upper2);
    DecodeToken(Pair(WriteHex4(HighOf(u), upper1), WriteHex4(LowOf(u), upper2)), rest);
  }

  /** Any other four characters after \u are refused: the number zero, a second surrogate on its own, and everything
      that is no hexadecimal number. */
  lemma OthersAreRefused(h: string, rest: string)
    requires |h| == 4
    ensures !IsHex4(h) || Hex4(h) == 0 || IsLowSurrogate(Hex4(h)) ==> Decode("\\u" + h + rest) == None
    ensures IsHex4(h) && IsHighSurrogate(Hex4(h)) && Decode("\\u" + h + rest).Some? ==>
      exists low: int, upper: seq<bool> :: IsLowSurrogate(low) && |upper| == 4 && "\\u" + WriteHex4(low, upper) <= rest
  {
    hide WriteHex4, HexValue, Utf8;
    var body := "\\u" + h + rest;
    assert body[2..6] == h && body[6..] == rest;
    if IsHex4(h) && IsHighSurrogate(Hex4(h)) && Decode(body).Some? {
      var g := body[8..12];
      var upper := HexIsWritten(g);
      assert g == rest[2..6] && rest[..2] == "\\u";
      assert "\\u" + WriteHex4(Hex4(g), upper) == rest[..6];
    }
  }

  // ---------- short escapes ----------

  const LETTERS := "bfnrt\"\\/"
  const CODES := [8, 12, 10, 13, 9, 34, 92, 47]

  /** The letters that may follow a backslash, and what they stand for; there are no others. */
  lemma ShortIsDecoded(i: nat, rest: string)
    requires i < 8
    ensures Decode(['\\', LETTERS[i]] + rest) == Prefixed([CODES[i] as char], Decode(rest))
  {
    assert ShortEscape(LETTERS[i]) == Some(CODES[i] as char);
    assert (['\\', LETTERS[i]] + rest)[2..] == rest;
  }

  lemma NoOtherLetter(e: char, rest: string)
    requires e !in LETTERS && e != 'u'
    ensures Decode(['\\', e] + rest) == None
  {
    forall i | 0 <= i < 8
      ensures e != LETTERS[i]
    {
    }
    assert ShortEscape(e) == None;
  }

  // ---------- what the printers write ----------

  /** A control character without a letter of its own is written in small hexadecimal digits. */
  lemma ControlIsWritten(c: char)
    requires c as int < 32 && c != BACKSPACE && c != FORM_FEED && c !in "\n\r\t"
    ensures Escape(c) == "\\u" + WriteHex4(c as int, [false, false, false, false])
  {
    var (n, h) := (c as int, WriteHex4(c as int, [false, false, false, false]));
    assert n / 0x1000 == 0 && n / 0x100 % 0x10 == 0 && n / 0x10 % 0x10 == n / 16;
    assert h == "00" + [DigitChar(n / 16), DigitChar(n % 16)];
  }

  /** A body without raw control characters and quotes. */
  predicate IsClean(body: string) {
    forall i :: 0 <= i < |body| ==> body[i] as int >= 32 && body[i] != '\"'
  }

  /** Of all such bodies that mean one character, the printers write a shortest one. */
  lemma EscapeIsShortest(c: char, body: string)
    requires c != '\0' && c as int < 256 && IsClean(body) && Decode(body) == Some([c])
    ensures Decode(Escape(c)) == Some([c]) && |Escape(c)| <= |body|
    ensures c != '\"' ==> IsClean(Escape(c))
  {
    EscapeIsClean(c);
    EscapeMeans(c);
    var ts := DecodedIsSpelled(body);
    OnePiece(ts, c);
    assert SpellAll(ts) == Spell(ts[0]) + SpellAll(ts[1..]) && ts[1..] == [];
    assert body == Spell(ts[0]);
    PieceIsLong(ts[0], c);
  }

  lemma DigitIsClean(n: nat)
    requires n < 16
    ensures DigitChar(n) as int >= 32 && DigitChar(n) != '\"'
  {
  }

  lemma EscapeIsClean(c: char)
    requires c != '\0' && c as int < 256
    ensures c == '\"' || IsClean(Escape(c))
    ensures c == '\"' ==> Escape(c) == "\\\""
  {
    hide DigitChar;
    if c as int < 32 {
      DigitIsClean(c as int / 16);
      DigitIsClean(c as int % 16);
    }
  }

  lemma EscapeMeans(c: char)
    requires c != '\0'
    ensures Decode(Escape(c)) == Some([c])
  {
    hide Decode, Escape;
    JsonRoundTrip.DecodeUndoesEscape([c]);
    assert EscapeAll([c]) == Escape(c) + EscapeAll([]) && Escape(c) + [] == Escape(c);
  }

  lemma {:induction false} PiecesMean(ts: seq<Token>)
    requires AllLegal(ts)
    ensures |MeaningOfAll(ts)| >= |ts|
  {
    hide Meaning;
    if ts != [] {
      MeansSomething(ts[0]);
      PiecesMean(ts[1..]);
    }
  }

  lemma OnePiece(ts: seq<Token>, c: char)
    requires AllLegal(ts) && MeaningOfAll(ts) == [c]
    ensures |ts| == 1 && Meaning(ts[0]) == [c]
  {
    hide Meaning;
    PiecesMean(ts);
    assert ts != [];
    assert MeaningOfAll(ts[1..]) == [] && Meaning(ts[0]) + [] == Meaning(ts[0]);
  }

  lemma MeansSomething(t: Token)
    requires Legal(t)
    ensures |Meaning(t)| > 0
  {
  }

  lemma PieceIsLong(t: Token, c: char)
    requires Legal(t) && Meaning(t) == [c] && IsClean(Spell(t)) && c != '\0'
    ensures |Escape(c)| <= |Spell(t)|
  {
    if t.Plain? {
      assert Spell(t)[0] == c;
    }
  }
}
