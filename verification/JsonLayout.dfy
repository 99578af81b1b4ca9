/** What the printers write, told by its tokens: without formatting there is nothing between them, and with formatting
    what is between two tokens depends on these two and the brackets that are open there. */
module JsonLayout {
  import opened Common
  import opened JsonText
  import opened JsonStrings
  import opened JsonParser
  import opened JsonNumerals
  import opened JsonRoundTrip
  import opened JsonPrinter
  import opened CStrings
  import opened JsonMinify
  import opened JsonGrammar
  import opened JsonComments

  // ---------- the tokens of a printed tree ----------

  function NumeralOf(n: int): Numeral {
    var m := if n < 0 then -n else n;
    Numeral(n < 0, m == 0, if m == 0 then [] else Digits(m), [], NoExponent)
  }

  function PiecesOf(text: string): (p: seq<Token>)
    ensures |p| == |text|
  {
    seq(|text|, i requires 0 <= i < |text| => TokenOf(text[i]))
  }

  /** How a printer spells a tree. */
  function Printed(j: Json): Source {
    match j
    case Null => NullWord
    case False => FalseWord
    case True => TrueWord
    case Number(value) => Figure(NumeralOf(value.Floor), value)
    case String(text) => Literal(PiecesOf(text))
    case Array(items) => List(seq(|items|, i requires 0 <= i < |items| => Printed(items[i])))
    case Object(members) =>
      Record(seq(|members|, i requires 0 <= i < |members| => Entry(PiecesOf(members[i].key), Printed(members[i].value))))
  }

  lemma NumeralIsPrinted(value: real)
    requires Printable(Number(value))
    ensures var n := NumeralOf(value.Floor);
      IsNumeral(n) && SpellNumeral(n) == Decimal(value.Floor) && IsValueOf(n, value)
  {
    hide Digits, DecimalValue;
    var n := NumeralOf(value.Floor);
    var m: nat := if value.Floor < 0 then -value.Floor else value.Floor;
    DigitsAreDecimal(m);
    WholeOf(n, m);
    assert n.whole + [] == n.whole;
    IsWhole(value.Floor, value);
  }

  lemma IsWhole(d: int, v: real)
    requires v == d as real
    ensures IsScaled(d, 0, v)
  {
    assert TenTo(0) == 1;
  }

  lemma WholeOf(n: Numeral, m: nat)
    requires n.zero == (m == 0) && n.whole == (if m == 0 then [] else Digits(m))
    requires n.fraction == [] && n.exponent.NoExponent?
    ensures SpellUnsigned(n) == Digits(m)
    ensures AllDigits(n.whole) && DecimalValue(n.whole) == m
    ensures !n.negative ==> SpellNumeral(n) == Digits(m)
    ensures n.negative ==> SpellNumeral(n) == "-" + Digits(m)
  {
    hide DecimalValue;
    DigitsAreDecimal(m);
    NoneIsZero([]);
    assert If(n.zero, "0") + n.whole + [] + [] == Digits(m);
    assert [] + Digits(m) == Digits(m);
  }

  lemma {:induction false} LiteralIsPrinted(text: string)
    requires NulFree(text)
    ensures IsLiteral(PiecesOf(text)) && SpellAll(PiecesOf(text)) == EscapeAll(text) && MeaningOfAll(PiecesOf(text)) == text
  {
    hide Spell, Meaning, Escape, Legal;
    PiecesLegal(text);
    if text != [] {
      var (p, c) := (PiecesOf(text), text[0]);
      assert p[0] == TokenOf(c) && p[1..] == PiecesOf(text[1..]);
      EscapeIsToken(c);
      LiteralIsPrinted(text[1..]);
      assert [c] + text[1..] == text;
    }
  }

  lemma PiecesLegal(text: string)
    requires NulFree(text)
    ensures IsLiteral(PiecesOf(text))
  {
    hide Legal;
    forall i | 0 <= i < |text|
      ensures Legal(PiecesOf(text)[i])
      ensures PiecesOf(text)[i].Plain? ==> PiecesOf(text)[i].c != '\"' && PiecesOf(text)[i].c != '\0'
    {
      EscapeIsToken(text[i]);
    }
  }

  /** A printed tree is a way to write that tree. */
  lemma {:induction false} PrintedIsSource(j: Json)
    requires Printable(j)
    ensures IsSource(Printed(j)) && TreeOf(Printed(j)) == j
    decreases j
  {
    hide Legal, PiecesOf, MeaningOfAll, IsValueOf, IsNumeral, NumeralOf, NulFree;
    match j
    case Number(value) => NumeralIsPrinted(value);
    case String(text) => LiteralIsPrinted(text);
    case Array(items) =>
      forall i | 0 <= i < |items|
        ensures IsSource(Printed(items[i])) && TreeOf(Printed(items[i])) == items[i]
      {
        PrintedIsSource(items[i]);
      }
    case Object(members) =>
      forall i | 0 <= i < |members|
        ensures IsLiteral(PiecesOf(members[i].key)) && MeaningOfAll(PiecesOf(members[i].key)) == members[i].key
        ensures IsSource(Printed(members[i].value)) && TreeOf(Printed(members[i].value)) == members[i].value
      {
        LiteralIsPrinted(members[i].key);
        PrintedIsSource(members[i].value);
      }
    case _ =>
  }

  // ---------- the layout ----------

  /** The brackets that are open after a token. */
  function Opened(token: string, open: seq<char>): seq<char> {
    if token == "{" || token == "[" then open + token
    else if (token == "}" || token == "]") && open != [] then open[..|open| - 1]
    else open
  }

  /** What stands between two tokens, with these brackets open. Members and the end of an object are each on a line of
      their own, indented by the number of brackets around them. */
  function Between(token: string, next: string, open: seq<char>): string {
    if token == ":" then "\t"
    else if token == "," && open != [] && open[|open| - 1] == '[' then " "
    else if next == "}" && open != [] then "\n" + Tabs(|open| - 1)
    else if token == "{" || token == "," then "\n" + Tabs(|open|)
    else ""
  }

  function Layout(tokens: seq<string>, open: seq<char>): string {
    if tokens == [] then []
    else
      var now := Opened(tokens[0], open);
      tokens[0] + (if |tokens| == 1 then [] else Between(tokens[0], tokens[1], now)) + Layout(tokens[1..], now)
  }

  /** What comes after a value. */
  function Behind(rest: seq<string>, open: seq<char>): string {
    if rest == [] then [] else (if rest[0] == "}" && open != [] then "\n" + Tabs(|open| - 1) else []) + Layout(rest, open)
  }

  predicate IsMark(token: string) {
    token == "{" || token == "}" || token == "[" || token == "]" || token == "," || token == ":"
  }

  lemma LayoutFirst(token: string, rest: seq<string>, open: seq<char>)
    ensures var now := Opened(token, open);
      Layout([token] + rest, open) == token + (if rest == [] then [] else Between(token, rest[0], now)) + Layout(rest, now)
  {
    assert ([token] + rest)[1..] == rest;
  }

  lemma TwoParts(a: string, b: string, c: string)
    ensures a + b + c == a + (b + c) && a + [] + [] == a + []
  {
  }

  lemma LayoutPlain(token: string, rest: seq<string>, open: seq<char>)
    requires !IsMark(token)
    ensures Layout([token] + rest, open) == token + Behind(rest, open)
  {
    hide Layout;
    LayoutFirst(token, rest, open);
    LayoutNothing(open);
    TwoParts(token, if rest == [] then [] else Between(token, rest[0], open), Layout(rest, open));
  }

  lemma LayoutNothing(open: seq<char>)
    ensures Layout([], open) == []
  {
  }

  lemma LayoutClose(mark: string, bracket: char, rest: seq<string>, open: seq<char>)
    requires mark == "}" || mark == "]"
    ensures Layout([mark] + rest, open + [bracket]) == mark + Behind(rest, open)
  {
    hide Layout;
    LayoutFirst(mark, rest, open + [bracket]);
    LayoutNothing(open);
    assert (open + [bracket])[..|open|] == open;
    TwoParts(mark, if rest == [] then [] else Between(mark, rest[0], open), Layout(rest, open));
  }

  lemma PrintedStart(j: Json)
    requires Printable(j)
    ensures Tokens(Printed(j))[0] !in ["}", "]", ",", ":"]
  {
    PrintedIsSource(j);
    TokenStart(Printed(j));
  }

  /** A value, and what is behind it. */
  lemma {:induction false} LayoutValue(j: Json, rest: seq<string>, open: seq<char>)
    requires Printable(j)
    ensures Layout(Tokens(Printed(j)) + rest, open) == Text(j, |open|, true) + Behind(rest, open)
    decreases j, 3
  {
    hide Layout, Behind, Text, PiecesOf, SpellAll, Quote, NumeralOf, Decimal;
    match j
    case Array(items) => LayoutArray(items, rest, open);
    case Object(members) => LayoutObject(members, rest, open);
    case _ =>
      LeafToken(j);
      LayoutPlain(Tokens(Printed(j))[0], rest, open);
  }

  lemma LeafToken(j: Json)
    requires Printable(j) && !j.Array? && !j.Object?
    ensures var t := Tokens(Printed(j)); |t| == 1 && t == [t[0]] && !IsMark(t[0])
    ensures forall depth: nat, fmt :: Tokens(Printed(j))[0] == Text(j, depth, fmt)
  {
    hide NumeralOf, PiecesOf, SpellNumeral, SpellAll, EscapeAll, Decimal;
    match j
    case Number(value) =>
      NumeralIsPrinted(value);
      NumeralStart(NumeralOf(value.Floor));
    case String(text) => LiteralIsPrinted(text);
    case _ =>
  }

  function Sources(items: seq<Json>): (s: seq<Source>)
    ensures |s| == |items|
  {
    seq(|items|, i requires 0 <= i < |items| => Printed(items[i]))
  }

  function Entries(members: seq<Member>): (s: seq<Entry>)
    ensures |s| == |members|
  {
    seq(|members|, i requires 0 <= i < |members| => Entry(PiecesOf(members[i].key), Printed(members[i].value)))
  }

  lemma SourcesStep(items: seq<Json>)
    requires items != []
    ensures Sources(items)[0] == Printed(items[0]) && Sources(items)[1..] == Sources(items[1..])
    ensures ElementTokens(Sources(items)) ==
      if |items| == 1 then Tokens(Printed(items[0]))
      else Tokens(Printed(items[0])) + ([","] + ElementTokens(Sources(items[1..])))
  {
    hide Printed, Tokens;
  }

  lemma EntriesStep(members: seq<Member>)
    requires members != []
    ensures var first := [SpellLiteral(PiecesOf(members[0].key))] + ([":"] + Tokens(Printed(members[0].value)));
      EntryTokens(Entries(members)) ==
        if |members| == 1 then first else first + ([","] + EntryTokens(Entries(members[1..])))
  {
    hide Printed, Tokens;
    assert Entries(members)[1..] == Entries(members[1..]);
  }

  lemma {:induction false} LayoutArray(items: seq<Json>, rest: seq<string>, open: seq<char>)
    requires forall i :: 0 <= i < |items| ==> Printable(items[i])
    ensures Layout(Tokens(Printed(Array(items))) + rest, open) == Text(Array(items), |open|, true) + Behind(rest, open)
    decreases items, 2
  {
    hide Layout, Behind, ItemsText, ElementTokens;
    var t := ElementTokens(Sources(items));
    var inner := open + ['['];
    var more := t + (["]"] + rest);
    assert Tokens(Printed(Array(items))) + rest == ["["] + more;
    LayoutFirst("[", more, open);
    assert Opened("[", open) == inner;
    LayoutItems(items, ["]"] + rest, inner);
    NextIsNoBrace(items, rest);
    LayoutClose("]", '[', rest, open);
    Joined4("[", ItemsText(items, |inner|, true), "]", Behind(rest, open));
  }

  lemma Joined4(a: string, b: string, c: string, d: string)
    ensures a + [] + (b + (c + d)) == a + b + c + d
  {
  }

  lemma NextIsNoBrace(items: seq<Json>, rest: seq<string>)
    requires forall i :: 0 <= i < |items| ==> Printable(items[i])
    ensures (ElementTokens(Sources(items)) + (["]"] + rest))[0] != "}"
  {
    hide Printed;
    if items != [] {
      SourcesStep(items);
      PrintedStart(items[0]);
    }
  }

  lemma ItemFirst(items: seq<Json>, rest: seq<string>)
    requires items != [] && Printable(items[0])
    ensures var more := ElementTokens(Sources(items)) + rest; |more| > 0 && more[0] != "}"
  {
    hide Printed;
    SourcesStep(items);
    PrintedStart(items[0]);
  }

  lemma {:induction false} LayoutItems(items: seq<Json>, rest: seq<string>, open: seq<char>)
    requires (forall i :: 0 <= i < |items| ==> Printable(items[i])) && rest != [] && rest[0] == "]"
    requires open != [] && open[|open| - 1] == '['
    ensures Layout(ElementTokens(Sources(items)) + rest, open) == ItemsText(items, |open|, true) + Layout(rest, open)
    decreases items, 1
  {
    hide Layout, Text, Tokens, Printed, Printable, Opened, Between;
    if items == [] {
      assert ElementTokens(Sources(items)) + rest == rest;
      assert ItemsText(items, |open|, true) == [];
      assert [] + Layout(rest, open) == Layout(rest, open);
    } else {
      var first := Tokens(Printed(items[0]));
      SourcesStep(items);
      if |items| == 1 {
        LayoutValue(items[0], rest, open);
        assert [] + Layout(rest, open) == Layout(rest, open);
      } else {
        var more := ElementTokens(Sources(items[1..])) + rest;
        assert ElementTokens(Sources(items)) + rest == first + ([","] + more);
        LayoutValue(items[0], [","] + more, open);
        LayoutFirst(",", more, open);
        ItemFirst(items[1..], rest);
        CommaBetween(more[0], open);
        LayoutItems(items[1..], rest, open);
        Joined5(Text(items[0], |open|, true), ",", " ", ItemsText(items[1..], |open|, true), Layout(rest, open));
      }
    }
  }

  lemma Joined5(a: string, b: string, c: string, d: string, e: string)
    ensures a + ([] + (b + c + (d + e))) == a + b + c + d + e
  {
  }

  lemma BraceBetween(next: string, open: seq<char>)
    ensures Opened("{", open) == open + ['{']
    ensures Between("{", next, open + ['{']) == "\n" + Tabs(if next == "}" then |open| else |open| + 1)
  {
    hide Tabs;
  }

  lemma {:induction false} LayoutObject(members: seq<Member>, rest: seq<string>, open: seq<char>)
    requires forall i :: 0 <= i < |members| ==> NulFree(members[i].key) && Printable(members[i].value)
    ensures Layout(Tokens(Printed(Object(members))) + rest, open)
      == Text(Object(members), |open|, true) + Behind(rest, open)
    decreases members, 2
  {
    hide Layout, Behind, MembersText, EntryTokens, Entries, Tabs, Printable, NulFree, Opened, Between;
    var t := EntryTokens(Entries(members));
    var inner := open + ['{'];
    var close := ["}"] + rest;
    var more := t + close;
    ObjectTokens(members, rest);
    LayoutFirst("{", more, open);
    BraceBetween(more[0], open);
    assert |inner| - 1 == |open|;
    LayoutClose("}", '{', rest, open);
    var (behind, tabs) := (Behind(rest, open), Tabs(|open|));
    if members == [] {
      NoEntries();
      assert more == close;
      assert MembersText(members, |inner|, true) == [] by { NoMembers(members, |inner|, true); }
      ObjectParts([], tabs, behind);
    } else {
      EntryFirst(members, close);
      LayoutMembers(members, close, inner);
      ObjectParts(MembersText(members, |inner|, true), tabs, behind);
      Indented(Tabs(|inner|), Layout(more, inner));
    }
  }

  lemma ObjectTokens(members: seq<Member>, rest: seq<string>)
    ensures Tokens(Printed(Object(members))) + rest == ["{"] + (EntryTokens(Entries(members)) + (["}"] + rest))
  {
  }

  lemma NoEntries()
    ensures EntryTokens(Entries([])) == []
  {
  }

  lemma Indented(tabs: string, more: string)
    ensures "{" + ("\n" + tabs) + more == "{\n" + (tabs + more)
  {
  }

  lemma ObjectParts(all: string, tabs: string, behind: string)
    ensures "{" + "\n" + all + tabs + "}" + behind == "{\n" + (all + (tabs + ("}" + behind)))
    ensures all == [] ==> "{" + "\n" + all + tabs + "}" + behind == "{" + ("\n" + tabs) + ("}" + behind)
  {
  }

  lemma EntryFirst(members: seq<Member>, close: seq<string>)
    requires members != [] && close != []
    ensures (EntryTokens(Entries(members)) + close)[0] != "}"
  {
    hide Printed, PiecesOf, SpellAll;
    EntriesStep(members);
    assert SpellLiteral(PiecesOf(members[0].key))[0] == '\"';
  }

  lemma FourRows(a: seq<string>, b: seq<string>, c: seq<string>, d: seq<string>, rest: seq<string>)
    ensures a + (b + c) + d + rest == a + (b + (c + (d + rest)))
    ensures d == [] ==> a + (b + c) + rest == a + (b + (c + rest))
    ensures forall e, f: seq<string> :: d == [e] + f ==> d + rest == [e] + (f + rest)
  {
  }

  lemma CommaBetween(next: string, open: seq<char>)
    requires open != [] && next != "}"
    ensures Opened(",", open) == open
    ensures Between(",", next, open) == if open[|open| - 1] == '[' then " " else "\n" + Tabs(|open|)
  {
    hide Tabs;
  }

  /** The comma between two members. */
  lemma LayoutComma(members: seq<Member>, rest: seq<string>, open: seq<char>)
    requires members != [] && rest != [] && open != [] && open[|open| - 1] == '{'
    ensures var more := EntryTokens(Entries(members)) + rest;
      Layout([","] + more, open) == "," + ("\n" + Tabs(|open|)) + Layout(more, open)
  {
    hide Layout, EntryTokens, Entries, Tabs, Opened, Between;
    EntryFirst(members, rest);
    var more := EntryTokens(Entries(members)) + rest;
    LayoutFirst(",", more, open);
    CommaBetween(more[0], open);
  }

  lemma {:induction false} LayoutMembers(members: seq<Member>, rest: seq<string>, open: seq<char>)
    requires members != [] && forall i :: 0 <= i < |members| ==> NulFree(members[i].key) && Printable(members[i].value)
    requires rest != [] && rest[0] == "}" && open != [] && open[|open| - 1] == '{'
    ensures Tabs(|open|) + Layout(EntryTokens(Entries(members)) + rest, open)
      == MembersText(members, |open|, true) + (Tabs(|open| - 1) + Layout(rest, open))
    decreases members, 1
  {
    hide Layout, MemberText, EntryTokens, Entries, Tokens, Printed, PiecesOf, Tabs, Printable, NulFree, SpellLiteral;
    EntriesStep(members);
    var last := |members| == 1;
    var tail := if last then rest else [","] + (EntryTokens(Entries(members[1..])) + rest);
    var key := SpellLiteral(PiecesOf(members[0].key));
    FourRows([key], [":"], Tokens(Printed(members[0].value)),
             if last then [] else [","] + EntryTokens(Entries(members[1..])), rest);
    LayoutMember(members[0], tail, open);
    var one := MemberText(members[0], |open|, true);
    if last {
      Parts3(one, "\n", Tabs(|open| - 1), Layout(rest, open));
    } else {
      var more := EntryTokens(Entries(members[1..])) + rest;
      LayoutComma(members[1..], rest, open);
      LayoutMembers(members[1..], rest, open);
      Parts4(one, Tabs(|open|), Layout(more, open), MembersText(members[1..], |open|, true),
             Tabs(|open| - 1) + Layout(rest, open));
    }
  }

  lemma Parts3(one: string, end: string, tabs: string, rest: string)
    ensures one + (end + tabs + rest) == one + end + (tabs + rest)
  {
  }

  lemma Parts4(one: string, tabs: string, more: string, members: string, rest: string)
    requires tabs + more == members + rest
    ensures one + ([] + ("," + ("\n" + tabs) + more)) == one + "," + "\n" + members + rest
  {
    assert "," + ("\n" + tabs) + more == "," + "\n" + (tabs + more);
  }

  lemma {:induction false} LayoutMember(m: Member, tail: seq<string>, open: seq<char>)
    requires NulFree(m.key) && Printable(m.value) && tail != []
    ensures Tabs(|open|) + Layout([SpellLiteral(PiecesOf(m.key))] + ([":"] + (Tokens(Printed(m.value)) + tail)), open)
      == MemberText(m, |open|, true) + Behind(tail, open)
    decreases m, 4
  {
    hide Layout, Tokens, Printed, PiecesOf, SpellAll, Text, Tabs, Printable, NulFree, EscapeAll;
    var key := SpellLiteral(PiecesOf(m.key));
    LiteralIsPrinted(m.key);
    assert key == Quote(m.key);
    var value := Tokens(Printed(m.value)) + tail;
    LayoutPlain(key, [":"] + value, open);
    LayoutFirst(":", value, open);
    LayoutValue(m.value, tail, open);
    MemberParts(Tabs(|open|), key, Text(m.value, |open|, true), Behind(tail, open));
  }

  lemma MemberParts(tabs: string, key: string, value: string, behind: string)
    ensures tabs + (key + ([] + (":" + "\t" + (value + behind)))) == tabs + key + ":" + "\t" + value + behind
  {
  }

  /** The formatted text is the layout of its tokens. */
  lemma FormattedIsLayout(j: Json)
    requires Printable(j)
    ensures Text(j, 0, true) == Layout(Tokens(Printed(j)), [])
  {
    LayoutValue(j, [], []);
    assert Tokens(Printed(j)) + [] == Tokens(Printed(j)) && Text(j, 0, true) + [] == Text(j, 0, true);
  }

  // ---------- without formatting ----------

  lemma {:induction false} PackedJoin(a: seq<string>, b: seq<string>)
    ensures Packed(a + b) == Packed(a) + Packed(b)
  {
    if a == [] {
      assert a + b == b;
    } else {
      assert (a + b)[1..] == a[1..] + b;
      PackedJoin(a[1..], b);
      TwoParts(a[0], Packed(a[1..]), Packed(b));
    }
  }

  lemma PackedOne(token: string)
    ensures Packed([token]) == token
  {
    assert token + Packed([]) == token;
  }

  /** A row in brackets. */
  lemma PackedBetween(left: string, row: seq<string>, right: string)
    ensures Packed([left] + (row + [right])) == left + Packed(row) + right
  {
    hide Packed;
    PackedJoin([left], row + [right]);
    PackedJoin(row, [right]);
    PackedOne(left);
    PackedOne(right);
    TwoParts(left, Packed(row), right);
  }

  /** Without formatting the tokens follow each other directly. */
  lemma {:induction false} UnformattedIsPacked(j: Json, depth: nat)
    requires Printable(j)
    ensures Text(j, depth, false) == Packed(Tokens(Printed(j)))
    decreases j, 3
  {
    hide Packed, PiecesOf, SpellAll, NumeralOf, Quote, Decimal;
    match j
    case Array(items) =>
      PackedItems(items, depth + 1);
      PackedBetween("[", ElementTokens(Sources(items)), "]");
    case Object(members) =>
      PackedMembers(members, depth + 1);
      PackedBetween("{", EntryTokens(Entries(members)), "}");
    case _ =>
      LeafToken(j);
      PackedOne(Tokens(Printed(j))[0]);
  }

  lemma PackedSeparated(a: seq<string>, b: seq<string>)
    ensures Packed(a + ([","] + b)) == Packed(a) + "," + Packed(b)
  {
    hide Packed;
    PackedJoin(a, [","] + b);
    PackedJoin([","], b);
    PackedOne(",");
    TwoParts(Packed(a), ",", Packed(b));
  }

  lemma {:induction false} PackedItems(items: seq<Json>, depth: nat)
    requires forall i :: 0 <= i < |items| ==> Printable(items[i])
    ensures ItemsText(items, depth, false) == Packed(ElementTokens(Sources(items)))
    decreases items, 1
  {
    hide Text, Tokens, Printed, Printable;
    if items != [] {
      SourcesStep(items);
      UnformattedIsPacked(items[0], depth);
      if |items| > 1 {
        PackedItems(items[1..], depth);
        PackedSeparated(Tokens(Printed(items[0])), ElementTokens(Sources(items[1..])));
      }
    }
  }

  lemma {:induction false} PackedMembers(members: seq<Member>, depth: nat)
    requires forall i :: 0 <= i < |members| ==> NulFree(members[i].key) && Printable(members[i].value)
    ensures MembersText(members, depth, false) == Packed(EntryTokens(Entries(members)))
    decreases members, 1
  {
    hide MemberText, Tokens, Printed, Printable, NulFree, PiecesOf, SpellLiteral, Packed, EntryTokens, Entries;
    if members == [] {
      NoEntries();
      PackedNothing();
    } else {
      EntriesStep(members);
      var first := [SpellLiteral(PiecesOf(members[0].key))] + ([":"] + Tokens(Printed(members[0].value)));
      PackedMember(members[0], depth);
      if |members| > 1 {
        PackedMembers(members[1..], depth);
        PackedSeparated(first, EntryTokens(Entries(members[1..])));
      }
    }
  }

  lemma PackedNothing()
    ensures Packed([]) == []
  {
  }

  lemma {:induction false} PackedMember(m: Member, depth: nat)
    requires NulFree(m.key) && Printable(m.value)
    ensures MemberText(m, depth, false) == Packed([SpellLiteral(PiecesOf(m.key))] + ([":"] + Tokens(Printed(m.value))))
    decreases m, 4
  {
    hide Packed, Text, Tokens, Printed, Printable, NulFree, PiecesOf, SpellAll, EscapeAll;
    LiteralIsPrinted(m.key);
    UnformattedIsPacked(m.value, depth);
    PackedJoin([Quote(m.key)], [":"] + Tokens(Printed(m.value)));
    PackedJoin([":"], Tokens(Printed(m.value)));
    PackedOne(Quote(m.key));
    PackedOne(":");
    TwoParts(Quote(m.key), ":", Text(m.value, depth, false));
  }

  // ---------- minifying in place ----------

  /** A printed tree with comments and white space inserted between its tokens is minified to its unformatted text. */
  lemma CommentedPrintIsMinified(j: Json, gaps: seq<seq<Filler>>, end: seq<Filler>)
    requires Printable(j) && |gaps| == |Tokens(Printed(j))| && AllGaps(gaps) && IsGap(end)
    ensures Minify(Commented(Printed(j), gaps, end)) == Some(Text(j, 0, false))
  {
    hide Commented, Packed, Text;
    PrintedIsSource(j);
    CommentedIsMinified(Printed(j), gaps, end);
    UnformattedIsPacked(j, 0);
  }

  /** And so it is in place. */
  method MinifyCommented(json: array<char>, ghost j: Json, ghost gaps: seq<seq<Filler>>, ghost end: seq<Filler>)
    requires Printable(j) && |gaps| == |Tokens(Printed(j))| && AllGaps(gaps) && IsGap(end)
    requires Holds(json, 0, Commented(Printed(j), gaps, end))
    modifies json
    ensures Holds(json, 0, Text(j, 0, false))
  {
    hide Commented, Text, Minify, AllGaps, IsGap;
    PrintedIsSource(j);
    CommentedNulFree(Printed(j), gaps, end);
    CommentedPrintIsMinified(j, gaps, end);
    MinifyInPlace(json, Commented(Printed(j), gaps, end));
  }
}
