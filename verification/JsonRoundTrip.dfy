/** Parsing what was printed gives back the tree, formatted or not. */
module JsonRoundTrip {
  import opened Common
  import opened JsonText
  import opened JsonStrings
  import opened JsonParser

  // ---------- numbers ----------

  /** Nothing at the front of `rest` could be read as more of a number. */
  predicate NumberEnds(rest: string) {
    !IsDigit(At(rest, 0)) && At(rest, 0) != '.' && At(rest, 0) != 'e' && At(rest, 0) != 'E'
  }

  lemma {:induction false} DigitsShape(n: nat)
    ensures |Digits(n)| > 0 && IsDigit(Digits(n)[0]) && (n > 0 ==> Digits(n)[0] != '0')
  {
    if n >= 10 {
      DigitsShape(n / 10);
    }
  }

  lemma {:induction false} TakesDigits(n: nat, rest: string)
    ensures TakeDigits(Digits(n) + rest, 0.0) == TakeDigits(rest, n as real)
  {
    if n < 10 {
      assert (Digits(n) + rest)[1..] == rest;
    } else {
      var last := [DigitChar(n % 10)];
      TakesDigits(n / 10, last + rest);
      assert Digits(n) + rest == Digits(n / 10) + (last + rest);
      assert (last + rest)[1..] == rest;
    }
  }

  lemma ParsesNatural(n: nat, rest: string)
    requires NumberEnds(rest)
    ensures ParseUnsigned(Digits(n) + rest) == (n as real, rest)
  {
    var s := Digits(n) + rest;
    DigitsShape(n);
    assert s[0] == Digits(n)[0];
    if n == 0 {
      assert s[1..] == rest;
    } else {
      TakesDigits(n, rest);
    }
  }

  lemma ParsesDecimal(n: int, rest: string)
    requires NumberEnds(rest)
    ensures ParseNumber(Decimal(n) + rest) == (n as real, rest)
  {
    hide ParseUnsigned, Digits;
    var digits := Digits(if n < 0 then -n else n);
    ParsesNatural(if n < 0 then -n else n, rest);
    DigitsShape(if n < 0 then -n else n);
    var s := Decimal(n) + rest;
    if n < 0 {
      assert s[1..] == digits + rest;
    } else {
      assert s[0] == digits[0];
    }
  }

  // ---------- strings ----------

  /** How the printer spells a character. */
  function TokenOf(c: char): Token {
    if c == '\\' || c == '\"' then Short(c)
    else if c == BACKSPACE then Short('b')
    else if c == FORM_FEED then Short('f')
    else if c == '\n' then Short('n')
    else if c == '\r' then Short('r')
    else if c == '\t' then Short('t')
    else if c as int < 32 then Unit("00" + [DigitChar(c as int / 16), DigitChar(c as int % 16)])
    else Plain(c)
  }

  lemma EscapeIsToken(c: char)
    requires c != '\0'
    ensures Legal(TokenOf(c)) && Spell(TokenOf(c)) == Escape(c) && Meaning(TokenOf(c)) == [c]
  {
    if TokenOf(c).Unit? {
      var h := TokenOf(c).hex;
      assert h[0] == '0' && h[1] == '0' && h[2] == DigitChar(c as int / 16) && h[3] == DigitChar(c as int % 16);
      HexOfDigit(c as int / 16);
      HexOfDigit(c as int % 16);
      assert Hex4(h) == c as int;
      assert Utf8(c as int) == [c];
    }
  }

  lemma HexOfDigit(d: nat)
    requires d < 16
    ensures IsHex(DigitChar(d)) && HexValue(DigitChar(d)) == d
  {
  }

  lemma {:induction false} DecodeUndoesEscape(s: string)
    requires NulFree(s)
    ensures Decode(EscapeAll(s)) == Some(s)
  {
    hide Decode, Escape, Spell, Meaning, Legal;
    if s == [] {
      DecodeNothing();
    } else {
      EscapeIsToken(s[0]);
      DecodeToken(TokenOf(s[0]), EscapeAll(s[1..]));
      DecodeUndoesEscape(s[1..]);
      assert [s[0]] + s[1..] == s;
    }
  }

  lemma DecodeNothing()
    ensures Decode([]) == Some([])
  {
  }

  predicate IsPlain(c: char) {
    c != '\\' && c != '\"' && c != '\0'
  }

  lemma {:induction false} BodyPlain(p: string, t: string)
    requires (forall i :: 0 <= i < |p| ==> IsPlain(p[i])) && BodyLength(t).Some?
    ensures BodyLength(p + t) == Some(|p| + BodyLength(t).value)
  {
    if p == [] {
      assert p + t == t;
    } else {
      BodyPlain(p[1..], t);
      assert (p + t)[1..] == p[1..] + t;
    }
  }

  lemma BodyEscape(e: char, t: string)
    requires e != '\0' && BodyLength(t).Some?
    ensures BodyLength(['\\', e] + t) == Some(2 + BodyLength(t).value)
  {
    assert (['\\', e] + t)[2..] == t;
  }

  /** An escaped character is plain, or a backslash, what it hides, and plain characters. */
  lemma EscapeShape(c: char)
    requires c != '\0'
    ensures var e := Escape(c);
      if |e| == 1 then IsPlain(e[0])
      else |e| >= 2 && e[0] == '\\' && e[1] != '\0' && forall i :: 2 <= i < |e| ==> IsPlain(e[i])
  {
  }

  lemma EscapeLength(c: char, t: string)
    requires c != '\0' && BodyLength(t).Some?
    ensures BodyLength(Escape(c) + t) == Some(|Escape(c)| + BodyLength(t).value)
  {
    hide BodyLength, Escape;
    EscapeShape(c);
    var e := Escape(c);
    if |e| == 1 {
      BodyPlain(e, t);
    } else {
      BodyPlain(e[2..], t);
      BodyEscape(e[1], e[2..] + t);
      assert e + t == ['\\', e[1]] + (e[2..] + t);
    }
  }

  lemma {:induction false} EscapedLength(s: string, rest: string)
    requires NulFree(s) && At(rest, 0) == '\"'
    ensures BodyLength(EscapeAll(s) + rest) == Some(|EscapeAll(s)|)
  {
    hide BodyLength, Escape;
    if s == [] {
      assert EscapeAll(s) + rest == rest;
      BodyOfQuote(rest);
    } else {
      var tail := EscapeAll(s[1..]) + rest;
      EscapedLength(s[1..], rest);
      assert EscapeAll(s) + rest == Escape(s[0]) + tail;
      EscapeLength(s[0], tail);
    }
  }

  lemma BodyOfQuote(rest: string)
    requires At(rest, 0) == '\"'
    ensures BodyLength(rest) == Some(0)
  {
  }

  lemma ParsesQuoted(s: string, rest: string)
    requires NulFree(s)
    ensures ParseString(Quote(s) + rest) == Ok(s, rest)
  {
    hide BodyLength, Decode, EscapeAll;
    var text := Quote(s) + rest;
    var body := EscapeAll(s);
    var t := body + ("\"" + rest);
    assert text == "\"" + t && text[1..] == t;
    EscapedLength(s, "\"" + rest);
    DecodeUndoesEscape(s);
    assert t[..|body|] == body && t[|body| + 1..] == rest && t[|body|] == '\"';
  }

  // ---------- white space ----------

  lemma {:induction false} SkipTabs(n: nat, t: string)
    ensures Skip(Tabs(n) + t) == Skip(t)
  {
    if n > 0 {
      SkipTabs(n - 1, t);
      assert (Tabs(n) + t)[1..] == Tabs(n - 1) + t;
    } else {
      assert Tabs(n) + t == t;
    }
  }

  /** The first character of a value is not white space and tells its kind. */
  lemma ValueStart(j: Json, depth: nat, fmt: bool)
    ensures var t := Text(j, depth, fmt); |t| > 0 && t[0] as int > 32 && t[0] != ']' && t[0] != '}'
  {
    var t := Text(j, depth, fmt);
    match j
    case Number(value) =>
      DigitsShape(if value.Floor < 0 then -value.Floor else value.Floor);
    case Array(items) => assert t[0] == '[';
    case Object(members) => assert t[0] == '{';
    case String(text) => assert t[0] == '\"';
    case _ =>
  }

  // ---------- values ----------

  lemma RoundTripNumber(n: int, rest: string)
    requires NumberEnds(rest)
    ensures ParseValue(Decimal(n) + rest) == Ok(Number(n as real), rest)
  {
    hide ParseNumber, Digits;
    var s := Decimal(n) + rest;
    ParsesDecimal(n, rest);
    DigitsShape(if n < 0 then -n else n);
    assert s[0] == Decimal(n)[0] && (s[0] == '-' || IsDigit(s[0]));
  }

  lemma RoundTripKeyword(rest: string)
    ensures ParseValue("null" + rest) == Ok(Null, rest)
    ensures ParseValue("false" + rest) == Ok(False, rest)
    ensures ParseValue("true" + rest) == Ok(True, rest)
  {
    var n, f, t := "null" + rest, "false" + rest, "true" + rest;
    assert n[..4] == "null" && n[4..] == rest;
    assert f[0] == 'f' && f[..5] == "false" && f[5..] == rest;
    assert t[0] == 't' && t[..4] == "true" && t[4..] == rest;
  }

  lemma RoundTripString(text: string, rest: string)
    requires NulFree(text)
    ensures ParseValue(Quote(text) + rest) == Ok(String(text), rest)
  {
    ParsesQuoted(text, rest);
    hide ParseString, EscapeAll;
    assert (Quote(text) + rest)[0] == '\"';
  }

  lemma ParseArray(t: string, items: seq<Json>, rest: string)
    requires Skip(t) == t && t != [] && t[0] != ']' && ParseItems(t) == Ok(items, rest)
    ensures ParseValue("[" + t) == Ok(Array(items), rest)
  {
    assert ("[" + t)[1..] == t;
  }

  lemma ParseEmptyArray(rest: string)
    ensures ParseValue("[" + ("]" + rest)) == Ok(Array([]), rest)
  {
    var s, t := "[" + ("]" + rest), "]" + rest;
    assert s[0] == '[' && s[1..] == t && t[1..] == rest;
    SkipNothing(']', rest);
  }

  lemma {:induction false} RoundTripValue(j: Json, depth: nat, fmt: bool, rest: string)
    requires Printable(j) && (j.Number? ==> NumberEnds(rest))
    ensures ParseValue(Text(j, depth, fmt) + rest) == Ok(j, rest)
    decreases j, 0
  {
    hide ParseValue, ParseItems, Skip, Decimal, Quote, NumberEnds;
    match j
    case String(text) => RoundTripString(text, rest);
    case Number(value) => RoundTripNumber(value.Floor, rest);
    case Array(items) =>
      var t := ItemsText(items, depth + 1, fmt) + ("]" + rest);
      assert Text(j, depth, fmt) + rest == "[" + t;
      if items == [] {
        assert t == "]" + rest;
        ParseEmptyArray(rest);
      } else {
        ItemsStart(items, depth + 1, fmt, "]" + rest);
        RoundTripItems(items, depth + 1, fmt, rest, t);
        ParseArray(t, items, rest);
      }
    case Object(members) =>
      RoundTripObject(members, depth, fmt, rest);
    case _ =>
      RoundTripKeyword(rest);
  }

  lemma ItemsStart(items: seq<Json>, depth: nat, fmt: bool, rest: string)
    requires items != []
    ensures var t := ItemsText(items, depth, fmt) + rest; t != [] && t[0] != ']' && Skip(t) == t
  {
    ValueStart(items[0], depth, fmt);
  }

  lemma ParseItemsLast(s: string, v: Json, after: string, rest: string)
    requires ParseValue(Skip(s)) == Ok(v, after) && Skip(after) == "]" + rest
    ensures ParseItems(s) == Ok([v], rest)
  {
    assert ("]" + rest)[1..] == rest;
  }

  lemma ParseItemsMore(s: string, v: Json, after: string, t: string, vs: seq<Json>, rest: string)
    requires ParseValue(Skip(s)) == Ok(v, after) && Skip(after) == "," + t && ParseItems(t) == Ok(vs, rest)
    ensures ParseItems(s) == Ok([v] + vs, rest)
  {
    assert ("," + t)[1..] == t;
  }

  lemma SkipNothing(c: char, t: string)
    requires c as int > 32
    ensures Skip([c] + t) == [c] + t
  {
  }

  lemma SkipIf(fmt: bool, c: char, t: string)
    requires 0 < c as int <= 32
    ensures Skip(If(fmt, [c]) + t) == Skip(t)
  {
    if fmt {
      assert ([c] + t)[1..] == t;
    } else {
      assert If(fmt, [c]) + t == t;
    }
  }

  lemma ItemsTextParts(items: seq<Json>, depth: nat, fmt: bool, close: string)
    requires items != []
    ensures |items| == 1 ==> ItemsText(items, depth, fmt) + close == Text(items[0], depth, fmt) + close
    ensures |items| > 1 ==>
      ItemsText(items, depth, fmt) + close ==
        Text(items[0], depth, fmt) + ("," + (If(fmt, " ") + (ItemsText(items[1..], depth, fmt) + close)))
  {
    hide Text, If;
  }

  lemma {:induction false} RoundTripItems(items: seq<Json>, depth: nat, fmt: bool, rest: string, s: string)
    requires items != [] && forall i :: 0 <= i < |items| ==> Printable(items[i])
    requires Skip(s) == ItemsText(items, depth, fmt) + ("]" + rest)
    ensures ParseItems(s) == Ok(items, rest)
    decreases items, 1
  {
    hide ParseValue, ParseItems, Skip, Text, ItemsText, If, Printable, NumberEnds;
    var v := items[0];
    ItemsTextParts(items, depth, fmt, "]" + rest);
    if |items| == 1 {
      EndsNumber(fmt, depth, rest);
      RoundTripValue(v, depth, fmt, "]" + rest);
      SkipNothing(']', rest);
      ParseItemsLast(s, v, "]" + rest, rest);
      assert items == [v];
    } else {
      var next := ItemsText(items[1..], depth, fmt) + ("]" + rest);
      var t := If(fmt, " ") + next;
      EndsNumber(fmt, depth, t);
      RoundTripValue(v, depth, fmt, "," + t);
      SkipNothing(',', t);
      SkipIf(fmt, ' ', next);
      ItemsStart(items[1..], depth, fmt, "]" + rest);
      RoundTripItems(items[1..], depth, fmt, rest, t);
      ParseItemsMore(s, v, "," + t, t, items[1..], rest);
      assert items == [v] + items[1..];
    }
  }

  /** The first key follows after white space only. */
  lemma MembersStart(members: seq<Member>, depth: nat, fmt: bool, rest: string)
    requires members != []
    ensures var t := Skip(MembersText(members, depth, fmt) + rest); Skip(t) == t && At(t, 0) == '\"'
  {
    hide MembersText, MemberText, Skip, If;
    var m := members[0];
    MembersTextParts(members, depth, fmt, rest);
    var after := if |members| == 1 then If(fmt, "\n") + rest
                 else "," + (If(fmt, "\n") + (MembersText(members[1..], depth, fmt) + rest));
    SkipIndentation(m, depth, fmt, after);
  }

  lemma ParseEmptyObject(s: string, rest: string)
    requires s != [] && s[0] == '{' && Skip(s[1..]) == "}" + rest
    ensures ParseValue(s) == Ok(Object([]), rest)
  {
    assert ("}" + rest)[1..] == rest;
  }

  lemma ParseObject(s: string, members: seq<Member>, rest: string)
    requires s != [] && s[0] == '{' && At(Skip(s[1..]), 0) == '\"' && ParseMembers(Skip(s[1..])) == Ok(members, rest)
    ensures ParseValue(s) == Ok(Object(members), rest)
  {
    hide ParseMembers, ParseItems, ParseString, ParseNumber, Skip;
  }

  lemma {:induction false} RoundTripObject(members: seq<Member>, depth: nat, fmt: bool, rest: string)
    requires forall i :: 0 <= i < |members| ==> NulFree(members[i].key) && Printable(members[i].value)
    ensures ParseValue(Text(Object(members), depth, fmt) + rest) == Ok(Object(members), rest)
    decreases members, 2
  {
    hide ParseValue, ParseMembers, Skip, MembersText, If, Printable, At;
    var s := Text(Object(members), depth, fmt) + rest;
    var close := If(fmt, Tabs(depth)) + ("}" + rest);
    var t := MembersText(members, depth + 1, fmt) + close;
    assert s[1..] == If(fmt, "\n") + t;
    SkipIf(fmt, '\n', t);
    if members == [] {
      NoMembersText(depth + 1, fmt);
      assert t == close;
      SkipClose(depth, fmt, rest);
      ParseEmptyObject(s, rest);
    } else {
      MembersStart(members, depth + 1, fmt, close);
      RoundTripMembers(members, depth, fmt, rest, Skip(t));
      ParseObject(s, members, rest);
    }
  }

  lemma NoMembersText(depth: nat, fmt: bool)
    ensures MembersText([], depth, fmt) == []
  {
  }

  lemma SkipClose(depth: nat, fmt: bool, rest: string)
    ensures Skip(If(fmt, Tabs(depth)) + ("}" + rest)) == "}" + rest
    ensures Skip(If(fmt, "\n") + (If(fmt, Tabs(depth)) + ("}" + rest))) == "}" + rest
  {
    var close := If(fmt, Tabs(depth)) + ("}" + rest);
    if fmt {
      SkipTabs(depth, "}" + rest);
      assert ("\n" + close)[1..] == close;
    } else {
      assert close == "}" + rest;
      assert If(fmt, "\n") + close == close;
    }
  }

  /** A member without its indentation. */
  function Bare(m: Member, depth: nat, fmt: bool): string {
    Quote(m.key) + (":" + (If(fmt, "\t") + Text(m.value, depth, fmt)))
  }

  lemma Regroup(tabs: string, key: string, gap: string, value: string, rest: string)
    ensures tabs + key + ":" + gap + value + rest == tabs + (key + (":" + (gap + value)) + rest)
  {
  }

  lemma SkipIndentation(m: Member, depth: nat, fmt: bool, rest: string)
    ensures Skip(MemberText(m, depth, fmt) + rest) == Bare(m, depth, fmt) + rest
    ensures Skip(Bare(m, depth, fmt) + rest) == Bare(m, depth, fmt) + rest
  {
    hide Text, EscapeAll, Tabs;
    var bare := Bare(m, depth, fmt) + rest;
    assert bare[0] == '\"';
    Regroup(If(fmt, Tabs(depth)), Quote(m.key), If(fmt, "\t"), Text(m.value, depth, fmt), rest);
    if fmt {
      SkipTabs(depth, bare);
    } else {
      assert If(fmt, Tabs(depth)) + bare == bare;
    }
  }

  lemma ParseMemberParts(s: string, key: string, t: string, u: string, v: Json, rest: string)
    requires ParseString(Skip(s)) == Ok(key, t) && Skip(t) == ":" + u && ParseValue(Skip(u)) == Ok(v, rest)
    ensures ParseMember(s) == Ok(Member(key, v), rest)
  {
    assert (":" + u)[1..] == u;
  }

  lemma {:induction false} RoundTripMember(m: Member, depth: nat, fmt: bool, rest: string, s: string)
    requires NulFree(m.key) && Printable(m.value) && NumberEnds(rest)
    requires Skip(s) == Bare(m, depth, fmt) + rest
    ensures ParseMember(s) == Ok(m, rest)
    decreases m, 1
  {
    hide ParseValue, ParseString, ParseMember, Skip, Text, If, Printable, NumberEnds, Quote;
    var value := Text(m.value, depth, fmt) + rest;
    var u := If(fmt, "\t") + value;
    assert Skip(s) == Quote(m.key) + (":" + u);
    ParsesQuoted(m.key, ":" + u);
    SkipNothing(':', u);
    SkipIf(fmt, '\t', value);
    ValueStart(m.value, depth, fmt);
    assert value == [value[0]] + value[1..];
    SkipNothing(value[0], value[1..]);
    RoundTripValue(m.value, depth, fmt, rest);
    ParseMemberParts(s, m.key, ":" + u, u, m.value, rest);
  }

  lemma ParseMembersLast(s: string, m: Member, after: string, rest: string)
    requires ParseMember(s) == Ok(m, after) && Skip(after) == "}" + rest
    ensures ParseMembers(s) == Ok([m], rest)
  {
    assert ("}" + rest)[1..] == rest;
  }

  lemma ParseMembersMore(s: string, m: Member, t: string, ms: seq<Member>, rest: string)
    requires ParseMember(s) == Ok(m, "," + t) && ParseMembers(t) == Ok(ms, rest)
    ensures ParseMembers(s) == Ok([m] + ms, rest)
  {
    SkipNothing(',', t);
    assert ("," + t)[1..] == t;
  }

  lemma EndsNumber(fmt: bool, depth: nat, rest: string)
    ensures NumberEnds(If(fmt, "\n") + (If(fmt, Tabs(depth)) + ("}" + rest)))
    ensures NumberEnds("," + rest) && NumberEnds("]" + rest)
  {
    if !fmt {
      assert If(fmt, "\n") + (If(fmt, Tabs(depth)) + ("}" + rest)) == "}" + rest;
    }
  }

  lemma MembersTextParts(members: seq<Member>, depth: nat, fmt: bool, close: string)
    requires members != []
    ensures |members| == 1 ==>
      MembersText(members, depth, fmt) + close == MemberText(members[0], depth, fmt) + (If(fmt, "\n") + close)
    ensures |members| > 1 ==>
      MembersText(members, depth, fmt) + close ==
        MemberText(members[0], depth, fmt) + ("," + (If(fmt, "\n") + (MembersText(members[1..], depth, fmt) + close)))
  {
    hide MemberText, If;
  }

  lemma {:induction false} RoundTripMembers(members: seq<Member>, depth: nat, fmt: bool, rest: string, s: string)
    requires members != [] && forall i :: 0 <= i < |members| ==> NulFree(members[i].key) && Printable(members[i].value)
    requires Skip(s) == Skip(MembersText(members, depth + 1, fmt) + (If(fmt, Tabs(depth)) + ("}" + rest)))
    ensures ParseMembers(s) == Ok(members, rest)
    decreases members, 1
  {
    hide ParseMember, ParseMembers, Skip, MembersText, MemberText, Bare, If, Printable, NumberEnds, NulFree;
    var m := members[0];
    var close := If(fmt, Tabs(depth)) + ("}" + rest);
    MembersTextParts(members, depth + 1, fmt, close);
    if |members| == 1 {
      var after := If(fmt, "\n") + close;
      SkipIndentation(m, depth + 1, fmt, after);
      SkipClose(depth, fmt, rest);
      EndsNumber(fmt, depth, rest);
      RoundTripMember(m, depth + 1, fmt, after, s);
      ParseMembersLast(s, m, after, rest);
      assert members == [m];
    } else {
      var next := MembersText(members[1..], depth + 1, fmt) + close;
      var t := If(fmt, "\n") + next;
      SkipIndentation(m, depth + 1, fmt, "," + t);
      EndsNumber(fmt, depth, t);
      RoundTripMember(m, depth + 1, fmt, "," + t, s);
      SkipIf(fmt, '\n', next);
      RoundTripMembers(members[1..], depth, fmt, rest, t);
      ParseMembersMore(s, m, t, members[1..], rest);
      assert members == [m] + members[1..];
    }
  }

  /** Parse after print is the identity, whatever the formatting, and stops exactly at the end. */
  lemma ParseAfterPrint(j: Json, fmt: bool, requireNullTerminated: bool)
    requires Printable(j)
    ensures Parse(Text(j, 0, fmt), requireNullTerminated) == Ok(j, [])
  {
    var text := Text(j, 0, fmt);
    assert text + [] == text;
    ValueStart(j, 0, fmt);
    RoundTripValue(j, 0, fmt, []);
  }
}
