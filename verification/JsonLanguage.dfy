/** The parser accepts nothing but what may be written for a tree, and makes that tree of it. */
module JsonLanguage {
  import opened Common
  import opened JsonText
  import opened JsonStrings
  import opened JsonParser
  import opened JsonParserCode
  import opened JsonNumerals
  import opened JsonRoundTrip
  import opened JsonMeaning
  import opened JsonGrammar

  /** `s` begins with the tokens of `x`, the first one without a gap, and `rest` is what follows them. */
  predicate IsWritten(s: string, x: Source, gaps: seq<string>, rest: string) {
    && IsSource(x) && |gaps| == |Tokens(x)| && AllBlank(gaps) && gaps[0] == []
    && s == Weave(Tokens(x), gaps) + rest
  }

  lemma LeafIsWritten(s: string) returns (x: Source)
    requires NulFree(s) && ParseValue(s).Ok? && !OpenLiteral(s) && At(s, 0) != '[' && At(s, 0) != '{'
    ensures IsWritten(s, x, [[]], ParseValue(s).rest) && TreeOf(x) == ParseValue(s).value
  {
    hide ParseValue, ParseString, ParseNumber, SpellNumeral, SpellLiteral, IsValueOf, OpenLiteral, MeaningOfAll;
    ValueUnfold(s);
    var rest := ParseValue(s).rest;
    if "null" <= s {
      x := NullWord;
    } else if "false" <= s {
      x := FalseWord;
    } else if "true" <= s {
      x := TrueWord;
    } else if At(s, 0) == '\"' {
      var pieces := ReadIsLiteral(s);
      x := Literal(pieces);
    } else {
      var n := ReadIsNumeral(s);
      x := Figure(n, ParseNumber(s).0);
    }
    WeaveOne(Tokens(x)[0], []);
    assert [] + Tokens(x)[0] == Tokens(x)[0] && Tokens(x) == [Tokens(x)[0]];
    assert s == Tokens(x)[0] + rest;
  }

  lemma TailNulFree(s: string, t: string)
    requires NulFree(s + t)
    ensures NulFree(s) && NulFree(t)
  {
    assert forall i :: 0 <= i < |s| ==> s[i] == (s + t)[i];
    assert forall i :: 0 <= i < |t| ==> t[i] == (s + t)[|s| + i];
  }

  lemma BlankNone()
    ensures IsBlank([])
  {
  }

  /** A value that was read was written so. */
  lemma {:induction false} ValueIsWritten(s: string) returns (x: Source, gaps: seq<string>)
    requires NulFree(s) && ParseValue(s).Ok? && !OpenLiteral(s)
    ensures IsWritten(s, x, gaps, ParseValue(s).rest) && TreeOf(x) == ParseValue(s).value
    decreases |s|, 2
  {
    hide ParseValue, IsWritten, OpenLiteral;
    if At(s, 0) == '[' {
      x, gaps := ArrayIsWritten(s);
    } else if At(s, 0) == '{' {
      x, gaps := ObjectIsWritten(s);
    } else {
      x := LeafIsWritten(s);
      gaps := [[]];
    }
  }

  lemma {:induction false} ArrayIsWritten(s: string) returns (x: Source, gaps: seq<string>)
    requires NulFree(s) && ParseValue(s).Ok? && At(s, 0) == '['
    ensures IsWritten(s, x, gaps, ParseValue(s).rest) && TreeOf(x) == ParseValue(s).value
    decreases |s|, 1
  {
    hide ParseValue, ParseItems, Skip, IsBlank, Weave, TreeOf, IsSource;
    ArrayUnfold(s);
    var u := s[1..];
    var t := Skip(u);
    var w := SkippedIsBlank(u);
    var elements: seq<Source>, g: seq<string>;
    if At(t, 0) == ']' {
      elements, g := [], [[]];
      WeaveOne("]", []);
      assert [] + "]" == "]" && t == "]" + t[1..];
      assert ElementTokens([]) + ["]"] == ["]"];
      BlankNone();
    } else {
      elements, g := ItemsAreWritten(t);
    }
    ListIsSource(elements);
    x := List(elements);
    gaps := Bracketed(s, "[", ElementTokens(elements) + ["]"], g, w, ParseValue(s).rest);
  }

  /** A bracket in front of a row of tokens. */
  lemma Bracketed(s: string, bracket: string, tokens: seq<string>, g: seq<string>, w: string, rest: string)
    returns (gaps: seq<string>)
    requires |g| == |tokens| > 0 && AllBlank(g) && IsBlank(w) && s == bracket + (w + (Weave(tokens, g) + rest))
    ensures |gaps| == 1 + |tokens| && AllBlank(gaps) && gaps[0] == [] && s == Weave([bracket] + tokens, gaps) + rest
  {
    hide Weave;
    var h := g[0 := w + g[0]];
    gaps := [[]] + h;
    WeaveFirst(tokens, g, w);
    WeaveJoin([bracket], tokens, [[]], h);
    WeaveOne(bracket, []);
    assert [] + bracket == bracket;
    assert bracket + (w + (Weave(tokens, g) + rest)) == bracket + (w + Weave(tokens, g)) + rest;
  }

  lemma ListIsSource(elements: seq<Source>)
    requires forall i :: 0 <= i < |elements| ==> IsSource(elements[i])
    ensures IsSource(List(elements)) && TreeOf(List(elements)) == Array(TreesOf(elements))
    ensures elements == [] ==> TreesOf(elements) == []
  {
  }

  lemma {:induction false} ItemsAreWritten(s: string) returns (elements: seq<Source>, gaps: seq<string>)
    requires NulFree(s) && ParseItems(s).Ok?
    ensures elements != [] && forall i :: 0 <= i < |elements| ==> IsSource(elements[i])
    ensures |gaps| == |ElementTokens(elements)| + 1 && AllBlank(gaps)
    ensures s == Weave(ElementTokens(elements) + ["]"], gaps) + ParseItems(s).rest
    ensures TreesOf(elements) == ParseItems(s).value
    decreases |s|, 3
  {
    hide ParseValue, ParseItems, Skip, IsBlank, Weave, TreeOf, TreesOf, IsSource, OpenLiteral;
    ItemsUnfold(s);
    var u := Skip(s);
    var r := ParseValue(u);
    var w := SkippedIsBlank(s);
    RestNotEmpty(r.rest);
    FollowedIsClosed(u);
    var x, g := ValueIsWritten(u);
    TailNulFree(Weave(Tokens(x), g), r.rest);
    var t := Skip(r.rest);
    var v := SkippedIsBlank(r.rest);
    var first := g[0 := w + g[0]];
    WeaveFirst(Tokens(x), g, w);
    BlankFirst(g, w);
    Regrouped(w, Weave(Tokens(x), g), r.rest);
    var rest := ParseItems(s).rest;
    if At(t, 0) == ',' {
      TailNulFree([t[0]], t[1..]);
      var more, h := ItemsAreWritten(t[1..]);
      elements := [x] + more;
      TreesStep(elements);
      assert elements[1..] == more;
      var tokens := ElementTokens(more) + ["]"];
      gaps := first + ([v] + h);
      Separated(Tokens(x), first, ",", v, tokens, h, rest);
      assert ElementTokens(elements) + ["]"] == Tokens(x) + ([","] + tokens);
      assert t == "," + t[1..];
    } else {
      elements := [x];
      TreesStep(elements);
      assert elements[1..] == [];
      NoTrees();
      gaps := first + [v];
      Separated(Tokens(x), first, "]", v, [], [], rest);
      WeaveNone(rest);
      assert [v] + [] == [v] && ["]"] + [] == ["]"];
      assert t == "]" + t[1..];
    }
  }

  lemma WeaveNone(rest: string)
    ensures Weave([], []) + rest == rest
  {
  }

  lemma NoTrees()
    ensures TreesOf([]) == []
  {
  }

  lemma RestNotEmpty(rest: string)
    ensures At(Skip(rest), 0) in ",:]}" ==> rest != []
  {
  }

  lemma BlankFirst(g: seq<string>, w: string)
    requires |g| > 0 && AllBlank(g) && IsBlank(w)
    ensures AllBlank(g[0 := w + g[0]])
  {
  }

  /** A row of tokens, a separator after its gap, and another row. */
  lemma Separated(a: seq<string>, ga: seq<string>, separator: string, v: string, b: seq<string>, gb: seq<string>,
                  rest: string)
    requires |ga| == |a| && |gb| == |b|
    ensures Weave(a, ga) + (v + (separator + (Weave(b, gb) + rest)))
      == Weave(a + ([separator] + b), ga + ([v] + gb)) + rest
  {
    hide Weave;
    WeaveOne(separator, v);
    WeaveJoin([separator], b, [v], gb);
    WeaveJoin(a, [separator] + b, ga, [v] + gb);
    Regrouped5(Weave(a, ga), v, separator, Weave(b, gb), rest);
  }

  lemma Regrouped5(x: string, v: string, separator: string, y: string, rest: string)
    ensures x + (v + (separator + (y + rest))) == x + (v + separator + y) + rest
  {
  }

  // ---------- objects ----------

  lemma {:induction false} ObjectIsWritten(s: string) returns (x: Source, gaps: seq<string>)
    requires NulFree(s) && ParseValue(s).Ok? && At(s, 0) == '{'
    ensures IsWritten(s, x, gaps, ParseValue(s).rest) && TreeOf(x) == ParseValue(s).value
    decreases |s|, 1
  {
    hide ParseValue, ParseMembers, Skip, IsBlank, Weave, TreeOf, IsSource;
    ObjectUnfold(s);
    var u := s[1..];
    var t := Skip(u);
    var w := SkippedIsBlank(u);
    var entries: seq<Entry>, g: seq<string>;
    if At(t, 0) == '}' {
      entries, g := [], [[]];
      WeaveOne("}", []);
      assert [] + "}" == "}" && t == "}" + t[1..];
      assert EntryTokens([]) + ["}"] == ["}"];
      BlankNone();
    } else {
      entries, g := MembersAreWritten(t);
    }
    RecordIsSource(entries);
    x := Record(entries);
    gaps := Bracketed(s, "{", EntryTokens(entries) + ["}"], g, w, ParseValue(s).rest);
  }

  lemma RecordIsSource(entries: seq<Entry>)
    requires forall i :: 0 <= i < |entries| ==> IsLiteral(entries[i].key) && IsSource(entries[i].value)
    ensures IsSource(Record(entries)) && TreeOf(Record(entries)) == Object(MembersOf(entries))
    ensures entries == [] ==> MembersOf(entries) == []
  {
  }

  lemma {:induction false} MemberIsWritten(s: string) returns (e: Entry, gaps: seq<string>)
    requires NulFree(s) && ParseMember(s).Ok? && ParseMember(s).rest != []
    ensures IsLiteral(e.key) && IsSource(e.value) && MemberOf(e) == ParseMember(s).value
    ensures |gaps| == |TokensOfEntry(e)| && AllBlank(gaps) && s == Weave(TokensOfEntry(e), gaps) + ParseMember(s).rest
    ensures NulFree(ParseMember(s).rest)
    decreases |s|, 3
  {
    hide ParseValue, ParseString, Skip, IsBlank, Weave, TreeOf, IsSource, IsLiteral, OpenLiteral, SpellLiteral, SpellAll;
    var u := Skip(s);
    var w := SkippedIsBlank(s);
    var key := ReadIsLiteral(u);
    var after := ParseString(u).rest;
    RestNotEmpty(after);
    var t := Skip(after);
    var v := SkippedIsBlank(after);
    TailNulFree([t[0]], t[1..]);
    assert t == [t[0]] + t[1..];
    var y := Skip(t[1..]);
    var z := SkippedIsBlank(t[1..]);
    FollowedIsClosed(y);
    var x, g := ValueIsWritten(y);
    var rest := ParseMember(s).rest;
    TailNulFree(Weave(Tokens(x), g), rest);
    e := Entry(key, x);
    var inner := g[0 := z + g[0]];
    WeaveFirst(Tokens(x), g, z);
    BlankFirst(g, z);
    Regrouped(z, Weave(Tokens(x), g), rest);
    gaps := [w] + ([v] + inner);
    WeaveOne(SpellLiteral(key), w);
    Separated([SpellLiteral(key)], [w], ":", v, Tokens(x), inner, rest);
    Regrouped(w, SpellLiteral(key), after);
  }

  lemma {:induction false} MembersAreWritten(s: string) returns (entries: seq<Entry>, gaps: seq<string>)
    requires NulFree(s) && ParseMembers(s).Ok?
    ensures entries != [] && forall i :: 0 <= i < |entries| ==> IsLiteral(entries[i].key) && IsSource(entries[i].value)
    ensures |gaps| == |EntryTokens(entries)| + 1 && AllBlank(gaps)
    ensures s == Weave(EntryTokens(entries) + ["}"], gaps) + ParseMembers(s).rest
    ensures MembersOf(entries) == ParseMembers(s).value
    decreases |s|, 4
  {
    hide ParseValue, ParseMember, ParseMembers, Skip, IsBlank, Weave, TreeOf, MembersOf, MemberOf, IsSource, IsLiteral,
      TokensOfEntry;
    MembersUnfold(s);
    var r := ParseMember(s);
    RestNotEmpty(r.rest);
    var e, first := MemberIsWritten(s);
    var t := Skip(r.rest);
    var v := SkippedIsBlank(r.rest);
    var rest := ParseMembers(s).rest;
    if At(t, 0) == ',' {
      TailNulFree([t[0]], t[1..]);
      assert t == "," + t[1..];
      var more, h := MembersAreWritten(t[1..]);
      entries := [e] + more;
      MembersStep(entries);
      assert entries[1..] == more;
      var tokens := EntryTokens(more) + ["}"];
      gaps := first + ([v] + h);
      Separated(TokensOfEntry(e), first, ",", v, tokens, h, rest);
      assert EntryTokens(entries) + ["}"] == TokensOfEntry(e) + ([","] + tokens);
    } else {
      entries := [e];
      MembersStep(entries);
      assert entries[1..] == [];
      NoMembersYet();
      gaps := first + [v];
      Separated(TokensOfEntry(e), first, "}", v, [], [], rest);
      WeaveNone(rest);
      assert [v] + [] == [v] && ["}"] + [] == ["}"];
      assert t == "}" + t[1..];
    }
  }

  lemma NoMembersYet()
    ensures MembersOf([]) == []
  {
  }

  // ---------- whole texts ----------

  /** A text: the tokens of a tree with white space before each of them and at the end. */
  predicate IsTextOf(text: string, x: Source, gaps: seq<string>, end: string) {
    IsSource(x) && |gaps| == |Tokens(x)| && AllBlank(gaps) && IsBlank(end) && text == Weave(Tokens(x), gaps) + end
  }

  /** Whatever is written for a tree is accepted and read as that tree. */
  lemma TextIsRead(text: string, x: Source, gaps: seq<string>, end: string)
    requires IsTextOf(text, x, gaps, end)
    ensures Parse(text, true) == Ok(TreeOf(x), []) && Parse(text, false) == Ok(TreeOf(x), end)
  {
    hide ParseValue, Weave, TreeOf, IsSource;
    BlankEnds(end);
    SourceIsRead(x, gaps, end);
  }

  lemma BlankEnds(end: string)
    requires IsBlank(end)
    ensures Stops(end) && Skip(end) == []
  {
    SkipBlank(end, []);
    assert end + [] == end;
  }

  /** And nothing else is: of the C strings, only that and one literal whose closing quote is missing at the end. */
  lemma ReadIsText(text: string) returns (x: Source, gaps: seq<string>, end: string)
    requires NulFree(text) && Parse(text, true).Ok?
    ensures IsSource(x) && TreeOf(x) == Parse(text, true).value
    ensures OpenLiteral(Skip(text)) ==>
      x.Literal? && |gaps| == 1 && IsBlank(gaps[0]) && text == gaps[0] + ("\"" + SpellAll(x.pieces))
    ensures !OpenLiteral(Skip(text)) ==> IsTextOf(text, x, gaps, end)
  {
    hide ParseValue, Weave, TreeOf, IsSource, Skip, OpenLiteral, IsBlank, SpellAll;
    var s := Skip(text);
    var w := SkippedIsBlank(text);
    if OpenLiteral(s) {
      x := OpenIsWritten(s);
      gaps, end := [w], [];
    } else {
      x, gaps := ValueIsWritten(s);
      var rest := ParseValue(s).rest;
      TailNulFree(Weave(Tokens(x), gaps), rest);
      end := SkippedIsBlank(rest);
      AllSkipped(rest);
      assert end + [] == end;
      WeaveFirst(Tokens(x), gaps, w);
      Regrouped(w, Weave(Tokens(x), gaps), rest);
      BlankFirst(gaps, w);
      gaps := gaps[0 := w + gaps[0]];
    }
  }

  lemma OpenIsWritten(s: string) returns (x: Source)
    requires NulFree(s) && ParseValue(s).Ok? && OpenLiteral(s)
    ensures IsSource(x) && x.Literal? && s == "\"" + SpellAll(x.pieces) && TreeOf(x) == ParseValue(s).value
  {
    hide ParseValue, ParseString, SpellAll, MeaningOfAll;
    ValueUnfold(s);
    var pieces := ReadIsLiteral(s);
    x := Literal(pieces);
  }
}
