/** The language of the parser: which texts it accepts, and the tree it makes of each. A text is a row of tokens with
    white space before each of them; the tokens spell a tree. */
module JsonGrammar {
  import opened Common
  import opened JsonText
  import opened JsonStrings
  import opened JsonParser
  import opened JsonParserCode
  import opened JsonNumerals
  import opened JsonRoundTrip
  import opened JsonMeaning

  // ---------- what may be written for a tree ----------

  /** A tree as it is written: with the spelling of each number and of each literal. */
  datatype Source =
    | NullWord
    | FalseWord
    | TrueWord
    | Figure(numeral: Numeral, value: real)
    | Literal(pieces: seq<Token>)
    | List(elements: seq<Source>)
    | Record(entries: seq<Entry>)

  datatype Entry = Entry(key: seq<Token>, value: Source)

  /** The pieces of a literal: legal, and none of them ends it. */
  predicate IsLiteral(pieces: seq<Token>) {
    AllLegal(pieces) && forall i :: 0 <= i < |pieces| && pieces[i].Plain? ==> pieces[i].c != '\"' && pieces[i].c != '\0'
  }

  predicate IsSource(x: Source) {
    match x
    case Figure(numeral, value) => IsNumeral(numeral) && IsValueOf(numeral, value)
    case Literal(pieces) => IsLiteral(pieces)
    case List(elements) => forall i :: 0 <= i < |elements| ==> IsSource(elements[i])
    case Record(entries) => forall i :: 0 <= i < |entries| ==> IsLiteral(entries[i].key) && IsSource(entries[i].value)
    case _ => true
  }

  /** The tree that is meant. */
  function TreeOf(x: Source): Json
    requires IsSource(x)
  {
    match x
    case NullWord => Null
    case FalseWord => False
    case TrueWord => True
    case Figure(_, value) => Number(value)
    case Literal(pieces) => String(MeaningOfAll(pieces))
    case List(elements) => Array(seq(|elements|, i requires 0 <= i < |elements| => TreeOf(elements[i])))
    case Record(entries) => Object(seq(|entries|, i requires 0 <= i < |entries| => MemberOf(entries[i])))
  }

  function MemberOf(e: Entry): Member
    requires IsLiteral(e.key) && IsSource(e.value)
  {
    Member(MeaningOfAll(e.key), TreeOf(e.value))
  }

  function SpellLiteral(pieces: seq<Token>): string {
    "\"" + SpellAll(pieces) + "\""
  }

  /** The tokens of a tree, in the order in which they are written. */
  function Tokens(x: Source): (t: seq<string>)
    ensures |t| > 0
    decreases x, 0
  {
    match x
    case NullWord => ["null"]
    case FalseWord => ["false"]
    case TrueWord => ["true"]
    case Figure(numeral, _) => [SpellNumeral(numeral)]
    case Literal(pieces) => [SpellLiteral(pieces)]
    case List(elements) => ["["] + (ElementTokens(elements) + ["]"])
    case Record(entries) => ["{"] + (EntryTokens(entries) + ["}"])
  }

  function ElementTokens(elements: seq<Source>): seq<string>
    decreases elements, 1
  {
    if elements == [] then []
    else if |elements| == 1 then Tokens(elements[0])
    else Tokens(elements[0]) + ([","] + ElementTokens(elements[1..]))
  }

  function TokensOfEntry(e: Entry): seq<string>
    decreases e, 1
  {
    [SpellLiteral(e.key)] + ([":"] + Tokens(e.value))
  }

  function EntryTokens(entries: seq<Entry>): seq<string>
    decreases entries, 2
  {
    if entries == [] then []
    else if |entries| == 1 then TokensOfEntry(entries[0])
    else TokensOfEntry(entries[0]) + ([","] + EntryTokens(entries[1..]))
  }

  // ---------- tokens and what is between them ----------

  /** The tokens, each after its gap. */
  function Weave(tokens: seq<string>, gaps: seq<string>): string
    requires |gaps| == |tokens|
  {
    if tokens == [] then [] else gaps[0] + tokens[0] + Weave(tokens[1..], gaps[1..])
  }

  lemma {:induction false} WeaveSplit(a: seq<string>, b: seq<string>, gaps: seq<string>)
    requires |gaps| == |a| + |b|
    ensures Weave(a + b, gaps) == Weave(a, gaps[..|a|]) + Weave(b, gaps[|a|..])
  {
    if a == [] {
      assert a + b == b && gaps[0..] == gaps && gaps[..0] == [];
    } else {
      assert (a + b)[1..] == a[1..] + b;
      assert gaps[1..][..|a| - 1] == gaps[..|a|][1..] && gaps[1..][|a| - 1..] == gaps[|a|..];
      WeaveSplit(a[1..], b, gaps[1..]);
      assert gaps[0] + a[0] + (Weave(a[1..], gaps[1..][..|a| - 1]) + Weave(b, gaps[|a|..]))
        == gaps[0] + a[0] + Weave(a[1..], gaps[1..][..|a| - 1]) + Weave(b, gaps[|a|..]);
    }
  }

  lemma WeaveJoin(a: seq<string>, b: seq<string>, ga: seq<string>, gb: seq<string>)
    requires |ga| == |a| && |gb| == |b|
    ensures Weave(a + b, ga + gb) == Weave(a, ga) + Weave(b, gb)
  {
    WeaveSplit(a, b, ga + gb);
    assert (ga + gb)[..|a|] == ga && (ga + gb)[|a|..] == gb;
  }

  lemma WeaveOne(token: string, gap: string)
    ensures Weave([token], [gap]) == gap + token
  {
    assert [token][1..] == [] && [gap][1..] == [];
    assert gap + token + [] == gap + token;
  }

  lemma WeaveFirst(tokens: seq<string>, gaps: seq<string>, w: string)
    requires |gaps| == |tokens| > 0
    ensures Weave(tokens, gaps[0 := w + gaps[0]]) == w + Weave(tokens, gaps)
  {
    assert gaps[0 := w + gaps[0]][1..] == gaps[1..];
    var more := Weave(tokens[1..], gaps[1..]);
    assert w + gaps[0] + tokens[0] + more == w + (gaps[0] + tokens[0] + more);
  }

  /** White space for the parser: everything up to code 32 but the terminator. */
  predicate IsBlank(s: string) {
    forall i :: 0 <= i < |s| ==> 0 < s[i] as int <= 32
  }

  predicate AllBlank(gaps: seq<string>) {
    forall i :: 0 <= i < |gaps| ==> IsBlank(gaps[i])
  }

  lemma {:induction false} SkipBlank(w: string, t: string)
    requires IsBlank(w)
    ensures Skip(w + t) == Skip(t)
  {
    if w == [] {
      assert w + t == t;
    } else {
      assert (w + t)[1..] == w[1..] + t;
      SkipBlank(w[1..], t);
    }
  }

  lemma {:induction false} SkippedIsBlank(s: string) returns (w: string)
    requires NulFree(s)
    ensures IsBlank(w) && s == w + Skip(s) && NulFree(Skip(s))
  {
    if s != [] && s[0] as int <= 32 {
      w := SkippedIsBlank(s[1..]);
      w := [s[0]] + w;
    } else {
      w := [];
      assert [] + s == s;
    }
  }

  // ---------- literals ----------

  lemma HexIsPlain(h: string)
    requires IsHex4(h)
    ensures |h| == 4 && forall i :: 0 <= i < |h| ==> IsPlain(h[i])
  {
  }

  lemma UnitLength(h: string, t: string)
    requires IsHex4(h) && BodyLength(t).Some?
    ensures |h| == 4 && BodyLength("\\u" + h + t) == Some(6 + BodyLength(t).value)
  {
    hide BodyLength;
    HexIsPlain(h);
    BodyPlain(h, t);
    BodyEscape('u', h + t);
    assert "\\u" + h + t == ['\\', 'u'] + (h + t);
  }

  lemma PieceLength(p: Token, t: string)
    requires IsLiteral([p]) && BodyLength(t).Some?
    ensures BodyLength(Spell(p) + t) == Some(|Spell(p)| + BodyLength(t).value)
  {
    hide BodyLength, IsHex4, Hex4, IsScalar;
    assert Legal([p][0]);
    match p
    case Plain(c) =>
      assert [p][0].Plain?;
      BodyPlain([c], t);
    case Short(letter) => BodyEscape(letter, t);
    case Unit(hex) => UnitLength(hex, t);
    case Pair(high, low) =>
      UnitLength(low, t);
      UnitLength(high, "\\u" + low + t);
      PairSpelled(high, low, t);
  }

  lemma PairSpelled(high: string, low: string, t: string)
    ensures Spell(Pair(high, low)) + t == "\\u" + high + ("\\u" + low + t) && |Spell(Pair(high, low))| == 4 + |high| + |low|
  {
  }

  lemma {:induction false} PiecesLength(pieces: seq<Token>, rest: string)
    requires IsLiteral(pieces) && (rest == [] || rest[0] == '\"')
    ensures BodyLength(SpellAll(pieces) + rest) == Some(|SpellAll(pieces)|)
  {
    hide Spell;
    if pieces == [] {
      assert SpellAll(pieces) + rest == rest;
    } else {
      assert forall i :: 0 <= i < |pieces| - 1 ==> pieces[1..][i] == pieces[i + 1];
      var t := SpellAll(pieces[1..]) + rest;
      PiecesLength(pieces[1..], rest);
      PieceLength(pieces[0], t);
      assert SpellAll(pieces) + rest == Spell(pieces[0]) + t;
    }
  }

  lemma LiteralIsRead(pieces: seq<Token>, rest: string)
    requires IsLiteral(pieces)
    ensures ParseString(SpellLiteral(pieces) + rest) == Ok(MeaningOfAll(pieces), rest)
  {
    hide BodyLength, Decode, SpellAll, MeaningOfAll;
    var body := SpellAll(pieces);
    var s := SpellLiteral(pieces) + rest;
    PiecesLength(pieces, "\"" + rest);
    SpelledIsDecoded(pieces);
    assert s[1..] == body + ("\"" + rest);
    assert s[1..][..|body|] == body && s[1..][|body|] == '\"' && s[1..][|body| + 1..] == rest;
  }

  lemma OpenIsRead(pieces: seq<Token>)
    requires IsLiteral(pieces)
    ensures ParseString("\"" + SpellAll(pieces)) == Ok(MeaningOfAll(pieces), [])
  {
    hide BodyLength, Decode, SpellAll, MeaningOfAll;
    var body := SpellAll(pieces);
    PiecesLength(pieces, []);
    SpelledIsDecoded(pieces);
    assert body + [] == body && ("\"" + body)[1..] == body && body[..|body|] == body && body[|body|..] == [];
  }

  /** The body of a literal that was accepted is spelled by pieces that do not end it. */
  lemma {:induction false} BodyIsLiteral(body: string, t: string) returns (pieces: seq<Token>)
    requires Decode(body).Some? && BodyLength(body + t) == Some(|body|)
    ensures IsLiteral(pieces) && SpellAll(pieces) == body && Decode(body) == Some(MeaningOfAll(pieces))
    decreases |body|
  {
    hide Spell, BodyLength, Decode, Meaning;
    if body == [] {
      DecodeNothing();
      pieces := [];
    } else {
      var p := FirstToken(body);
      var after := body[|Spell(p)|..];
      assert body == Spell(p) + after;
      assert body + t == Spell(p) + (after + t);
      DecodeToken(p, after);
      FirstInBody(p, after, t);
      var rest := BodyIsLiteral(after, t);
      pieces := [p] + rest;
      LiteralJoin(p, rest);
    }
  }

  lemma LiteralJoin(p: Token, rest: seq<Token>)
    requires IsLiteral([p]) && IsLiteral(rest)
    ensures IsLiteral([p] + rest) && Legal(p)
    ensures SpellAll([p] + rest) == Spell(p) + SpellAll(rest) && MeaningOfAll([p] + rest) == Meaning(p) + MeaningOfAll(rest)
  {
    hide Spell, Meaning;
    assert Legal([p][0]);
    assert ([p] + rest)[1..] == rest;
    forall i | 0 <= i < |[p] + rest|
      ensures Legal(([p] + rest)[i])
      ensures ([p] + rest)[i].Plain? ==> ([p] + rest)[i].c != '\"' && ([p] + rest)[i].c != '\0'
    {
      assert ([p] + rest)[i] == if i == 0 then [p][0] else rest[i - 1];
    }
  }

  lemma PlainInBody(c: char, t: string)
    requires c != '\\' && BodyLength([c] + t).Some? && BodyLength([c] + t).value > 0
    ensures IsPlain(c) && BodyLength(t) == Some(BodyLength([c] + t).value - 1)
  {
    assert ([c] + t)[1..] == t;
  }

  lemma ShortInBody(e: char, t: string)
    requires BodyLength(['\\', e] + t).Some?
    ensures BodyLength(t) == Some(BodyLength(['\\', e] + t).value - 2)
  {
    assert (['\\', e] + t)[2..] == t;
  }

  lemma UnitInBody(h: string, t: string)
    requires IsHex4(h) && BodyLength("\\u" + h + t).Some?
    ensures BodyLength(t) == Some(BodyLength("\\u" + h + t).value - 6)
  {
    hide BodyLength;
    assert "\\u" + h + t == ['\\', 'u'] + (h + t);
    ShortInBody('u', h + t);
    DropPlain(h, t);
  }

  lemma FirstInBody(p: Token, after: string, t: string)
    requires Legal(p) && BodyLength(Spell(p) + (after + t)) == Some(|Spell(p)| + |after|)
    ensures IsLiteral([p]) && BodyLength(after + t) == Some(|after|)
  {
    hide BodyLength, IsHex4, Hex4, IsScalar;
    match p
    case Plain(c) => PlainInBody(c, after + t);
    case Short(letter) => ShortInBody(letter, after + t);
    case Unit(hex) =>
      UnitInBody(hex, after + t);
      HexIsPlain(hex);
    case Pair(high, low) =>
      PairSpelled(high, low, after + t);
      UnitInBody(high, "\\u" + low + (after + t));
      UnitInBody(low, after + t);
      HexIsPlain(high);
      HexIsPlain(low);
  }

  lemma DropPlain(h: string, t: string)
    requires IsHex4(h) && BodyLength(h + t).Some?
    ensures BodyLength(t).Some? && BodyLength(h + t).value == 4 + BodyLength(t).value
  {
    HexIsPlain(h);
    if BodyLength(t).Some? {
      BodyPlain(h, t);
    } else {
      NoEnd(h, t);
    }
  }

  lemma NoEnd(p: string, t: string)
    requires (forall i :: 0 <= i < |p| ==> IsPlain(p[i])) && BodyLength(t).None?
    ensures BodyLength(p + t).None?
  {
    if p == [] {
      assert p + t == t;
    } else {
      assert (p + t)[1..] == p[1..] + t;
      NoEnd(p[1..], t);
    }
  }

  /** A literal that is accepted and closed. */
  lemma ReadIsLiteral(s: string) returns (pieces: seq<Token>)
    requires NulFree(s) && ParseString(s).Ok?
    ensures IsLiteral(pieces) && ParseString(s).value == MeaningOfAll(pieces)
    ensures if OpenLiteral(s) then s == "\"" + SpellAll(pieces) && ParseString(s).rest == []
            else s == SpellLiteral(pieces) + ParseString(s).rest
    ensures NulFree(ParseString(s).rest)
  {
    hide Decode, BodyLength, MeaningOfAll, SpellAll;
    var t := s[1..];
    var n := BodyLength(t).value;
    StopsAtQuote(t);
    assert t == t[..n] + t[n..];
    pieces := BodyIsLiteral(t[..n], t[n..]);
    assert s == "\"" + t;
    if n < |t| {
      assert t[n..] == "\"" + t[n + 1..];
    }
  }

  // ---------- whatever is written is read ----------

  /** What the first character of a token may be. */
  predicate Begins(token: string) {
    token != [] && token[0] as int > 32
  }

  lemma SkipToFirst(tokens: seq<string>, gaps: seq<string>, rest: string)
    requires |gaps| == |tokens| > 0 && Begins(tokens[0]) && IsBlank(gaps[0])
    ensures Skip(Weave(tokens, gaps) + rest) == tokens[0] + (Weave(tokens[1..], gaps[1..]) + rest)
  {
    hide IsBlank;
    var t := tokens[0] + (Weave(tokens[1..], gaps[1..]) + rest);
    assert Weave(tokens, gaps) + rest == gaps[0] + t;
    SkipBlank(gaps[0], t);
  }

  /** A gap and a bracket or a comma end a number. */
  lemma EndsAfter(gap: string, token: string, more: string)
    requires IsBlank(gap) && Begins(token) && token[0] in ",]}"
    ensures Stops(gap + token + more)
  {
    var s := gap + token + more;
    assert s[0] == if gap == [] then token[0] else gap[0];
  }

  lemma TokenStart(x: Source)
    requires IsSource(x)
    ensures Begins(Tokens(x)[0]) && Tokens(x)[0][0] !in ",:]}"
  {
  }

  lemma ElementsStart(elements: seq<Source>)
    requires elements != [] && IsSource(elements[0])
    ensures ElementTokens(elements) != [] && Begins(ElementTokens(elements)[0]) && ElementTokens(elements)[0][0] != ']'
  {
    TokenStart(elements[0]);
  }

  lemma EntriesStart(entries: seq<Entry>)
    requires entries != []
    ensures EntryTokens(entries) != [] && Begins(EntryTokens(entries)[0]) && EntryTokens(entries)[0][0] != '}'
  {
  }

  lemma LeafIsRead(x: Source, rest: string)
    requires IsSource(x) && !x.List? && !x.Record? && Stops(rest)
    ensures |Tokens(x)| == 1 && ParseValue(Tokens(x)[0] + rest) == Ok(TreeOf(x), rest)
  {
    hide ParseValue, ParseString, ParseNumber, SpellAll, SpellNumeral, IsValueOf;
    var s := Tokens(x)[0] + rest;
    if x.Literal? || x.Figure? {
      TokenStart(x);
      assert s[0] == Tokens(x)[0][0];
    }
    match x
    case Literal(pieces) =>
      LiteralIsRead(pieces, rest);
      ValueUnfold(s);
    case Figure(n, v) =>
      NumeralIsRead(n, rest);
      NumeralStart(n);
      SameValue(n, v, ParseNumber(s).0);
      ValueUnfold(s);
    case _ => RoundTripKeyword(rest);
  }

  lemma NumeralStart(n: Numeral)
    requires IsNumeral(n)
    ensures SpellNumeral(n) != [] && (SpellNumeral(n)[0] == '-' || IsDigit(SpellNumeral(n)[0]))
  {
  }

  lemma SameValue(n: Numeral, v: real, w: real)
    requires IsNumeral(n) && IsValueOf(n, v) && IsValueOf(n, w)
    ensures v == w
  {
    hide IsScaled;
    var d := DecimalValue(n.whole + n.fraction);
    ScaledOnce(if n.negative then -d else d, PowerOf(n.exponent) - |n.fraction|, v, w);
  }

  /** A tree is read from its tokens, whatever white space there is between them, and exactly to its end. */
  lemma {:induction false} SourceIsRead(x: Source, gaps: seq<string>, rest: string)
    requires IsSource(x) && |gaps| == |Tokens(x)| && AllBlank(gaps) && Stops(rest)
    ensures ParseValue(Skip(Weave(Tokens(x), gaps) + rest)) == Ok(TreeOf(x), rest)
    decreases x, 3
  {
    hide ParseValue, IsBlank, Stops, Begins, Skip;
    TokenStart(x);
    SkipToFirst(Tokens(x), gaps, rest);
    if x.List? {
      ListIsRead(x.elements, gaps, rest);
    } else if x.Record? {
      RecordIsRead(x.entries, gaps, rest);
    } else {
      LeafIsRead(x, rest);
      assert Weave(Tokens(x)[1..], gaps[1..]) + rest == rest;
    }
  }

  lemma {:induction false} ListIsRead(elements: seq<Source>, gaps: seq<string>, rest: string)
    requires IsSource(List(elements)) && |gaps| == |Tokens(List(elements))| && AllBlank(gaps)
    ensures ParseValue("[" + (Weave(Tokens(List(elements))[1..], gaps[1..]) + rest)) == Ok(TreeOf(List(elements)), rest)
    decreases elements, 2
  {
    hide ParseValue, ParseItems, IsBlank, Skip, Begins, Weave, TreeOf, IsSource;
    var tokens := ElementTokens(elements) + ["]"];
    assert Tokens(List(elements))[1..] == tokens;
    var w := Weave(tokens, gaps[1..]) + rest;
    var s := "[" + w;
    assert s[1..] == w;
    ArrayUnfold(s);
    ListTree(elements);
    if elements == [] {
      assert tokens == ["]"] && gaps[1..] == [gaps[1]];
      SkipClosing("]", gaps[1], rest);
      assert TreesOf(elements) == [];
    } else {
      ElementsStart(elements);
      SkipToFirst(tokens, gaps[1..], rest);
      FirstOf(tokens[0], Weave(tokens[1..], gaps[1..][1..]) + rest);
      ElementsAreRead(elements, gaps[1..], rest);
      ItemsUnfold(w);
      ItemsUnfold(Skip(w));
      SkipTwice(w);
    }
  }

  lemma FirstOf(token: string, more: string)
    requires Begins(token)
    ensures At(token + more, 0) == token[0]
  {
  }

  lemma SkipClosing(token: string, gap: string, rest: string)
    requires IsBlank(gap) && Begins(token)
    ensures Skip(Weave([token], [gap]) + rest) == token + rest
  {
    WeaveOne(token, gap);
    assert gap + token + rest == gap + (token + rest);
    SkipBlank(gap, token + rest);
  }

  function TreesOf(elements: seq<Source>): (t: seq<Json>)
    requires forall i :: 0 <= i < |elements| ==> IsSource(elements[i])
    ensures |t| == |elements|
  {
    seq(|elements|, i requires 0 <= i < |elements| => TreeOf(elements[i]))
  }

  lemma ListTree(elements: seq<Source>)
    requires IsSource(List(elements))
    ensures forall i :: 0 <= i < |elements| ==> IsSource(elements[i])
    ensures TreeOf(List(elements)) == Array(TreesOf(elements))
  {
  }

  lemma TreesStep(elements: seq<Source>)
    requires elements != [] && forall i :: 0 <= i < |elements| ==> IsSource(elements[i])
    ensures TreesOf(elements) == [TreeOf(elements[0])] + TreesOf(elements[1..])
  {
  }

  /** The rest of an array, from the gap before one of its elements on. */
  lemma {:induction false} ElementsAreRead(elements: seq<Source>, gaps: seq<string>, rest: string)
    requires elements != [] && (forall i :: 0 <= i < |elements| ==> IsSource(elements[i]))
    requires |gaps| == |ElementTokens(elements)| + 1 && AllBlank(gaps)
    ensures ParseItems(Weave(ElementTokens(elements) + ["]"], gaps) + rest) == Ok(TreesOf(elements), rest)
    decreases elements, 1
  {
    hide ParseValue, ParseItems, IsBlank, Skip, Begins, Weave, TreeOf, IsSource, Stops, TreesOf;
    var first := Tokens(elements[0]);
    var k := |first|;
    var last := |elements| == 1;
    var others := if last then ["]"] else [","] + (ElementTokens(elements[1..]) + ["]"]);
    assert ElementTokens(elements) + ["]"] == first + others;
    WeaveSplit(first, others, gaps);
    var after := Weave(others, gaps[k..]) + rest;
    var s := Weave(ElementTokens(elements) + ["]"], gaps) + rest;
    assert s == Weave(first, gaps[..k]) + after;
    AfterSeparator(others, gaps[k..], rest);
    SourceIsRead(elements[0], gaps[..k], after);
    ItemsUnfold(s);
    TreesStep(elements);
    var t := Skip(after);
    if last {
      assert t == "]" + rest && elements[1..] == [];
      assert TreesOf(elements[1..]) == [];
    } else {
      assert others[1..] == ElementTokens(elements[1..]) + ["]"] && gaps[k..][1..] == gaps[k + 1..];
      var more := Weave(others[1..], gaps[k + 1..]) + rest;
      assert t == "," + more && t[1..] == more;
      ElementsAreRead(elements[1..], gaps[k + 1..], rest);
    }
  }

  /** A separator is found after its gap, and ends a number. */
  lemma AfterSeparator(others: seq<string>, gaps: seq<string>, rest: string)
    requires |gaps| == |others| > 0 && AllBlank(gaps) && |others[0]| == 1 && others[0][0] in ",]}"
    ensures Stops(Weave(others, gaps) + rest)
    ensures Skip(Weave(others, gaps) + rest) == others[0] + (Weave(others[1..], gaps[1..]) + rest)
    ensures |others| == 1 ==> Skip(Weave(others, gaps) + rest) == others[0] + rest
  {
    var more := Weave(others[1..], gaps[1..]) + rest;
    assert Weave(others, gaps) + rest == gaps[0] + others[0] + more;
    EndsAfter(gaps[0], others[0], more);
    SkipToFirst(others, gaps, rest);
    if |others| == 1 {
      assert more == rest;
    }
  }

  lemma {:induction false} RecordIsRead(entries: seq<Entry>, gaps: seq<string>, rest: string)
    requires IsSource(Record(entries)) && |gaps| == |Tokens(Record(entries))| && AllBlank(gaps)
    ensures ParseValue("{" + (Weave(Tokens(Record(entries))[1..], gaps[1..]) + rest)) == Ok(TreeOf(Record(entries)), rest)
    decreases entries, 3
  {
    hide ParseValue, ParseMembers, IsBlank, Skip, Begins, Weave, TreeOf, IsSource;
    var tokens := EntryTokens(entries) + ["}"];
    assert Tokens(Record(entries))[1..] == tokens;
    var w := Weave(tokens, gaps[1..]) + rest;
    var s := "{" + w;
    assert s[1..] == w;
    ObjectUnfold(s);
    RecordTree(entries);
    if entries == [] {
      assert tokens == ["}"] && gaps[1..] == [gaps[1]];
      SkipClosing("}", gaps[1], rest);
      assert MembersOf(entries) == [];
    } else {
      EntriesStart(entries);
      SkipToFirst(tokens, gaps[1..], rest);
      FirstOf(tokens[0], Weave(tokens[1..], gaps[1..][1..]) + rest);
      EntriesAreRead(entries, gaps[1..], rest);
      SkipMembers(w);
    }
  }

  lemma SkipMembers(w: string)
    ensures ParseMembers(Skip(w)) == ParseMembers(w)
  {
    hide ParseValue, ParseString, Skip;
    SkipTwice(w);
    MembersUnfold(w);
    MembersUnfold(Skip(w));
  }

  function MembersOf(entries: seq<Entry>): (t: seq<Member>)
    requires forall i :: 0 <= i < |entries| ==> IsLiteral(entries[i].key) && IsSource(entries[i].value)
    ensures |t| == |entries|
  {
    seq(|entries|, i requires 0 <= i < |entries| => MemberOf(entries[i]))
  }

  lemma RecordTree(entries: seq<Entry>)
    requires IsSource(Record(entries))
    ensures forall i :: 0 <= i < |entries| ==> IsLiteral(entries[i].key) && IsSource(entries[i].value)
    ensures TreeOf(Record(entries)) == Object(MembersOf(entries))
  {
  }

  lemma MembersStep(entries: seq<Entry>)
    requires entries != [] && forall i :: 0 <= i < |entries| ==> IsLiteral(entries[i].key) && IsSource(entries[i].value)
    ensures MembersOf(entries) == [MemberOf(entries[0])] + MembersOf(entries[1..])
  {
  }

  lemma {:induction false} EntryIsRead(e: Entry, gaps: seq<string>, rest: string)
    requires IsLiteral(e.key) && IsSource(e.value) && |gaps| == |TokensOfEntry(e)| && AllBlank(gaps) && Stops(rest)
    ensures ParseMember(Weave(TokensOfEntry(e), gaps) + rest) == Ok(MemberOf(e), rest)
    decreases e, 0
  {
    hide ParseValue, ParseString, IsBlank, Skip, Weave, TreeOf, IsSource, SpellLiteral, MeaningOfAll;
    var tokens := TokensOfEntry(e);
    var s := Weave(tokens, gaps) + rest;
    KeyStart(e.key);
    SkipToFirst(tokens, gaps, rest);
    assert tokens[1..] == [":"] + Tokens(e.value);
    var s1 := Weave(tokens[1..], gaps[1..]) + rest;
    LiteralIsRead(e.key, s1);
    SkipToFirst(tokens[1..], gaps[1..], rest);
    assert tokens[1..][1..] == Tokens(e.value);
    var s2 := Weave(Tokens(e.value), gaps[1..][1..]) + rest;
    assert Skip(s1) == ":" + s2 && (":" + s2)[1..] == s2;
    SourceIsRead(e.value, gaps[1..][1..], rest);
  }

  lemma KeyStart(key: seq<Token>)
    ensures Begins(SpellLiteral(key)) && SpellLiteral(key)[0] == '\"'
  {
  }

  /** The rest of an object, from the gap before one of its keys on. */
  lemma {:induction false} EntriesAreRead(entries: seq<Entry>, gaps: seq<string>, rest: string)
    requires entries != [] && (forall i :: 0 <= i < |entries| ==> IsLiteral(entries[i].key) && IsSource(entries[i].value))
    requires |gaps| == |EntryTokens(entries)| + 1 && AllBlank(gaps)
    ensures ParseMembers(Weave(EntryTokens(entries) + ["}"], gaps) + rest) == Ok(MembersOf(entries), rest)
    decreases entries, 2
  {
    hide ParseValue, ParseMembers, ParseMember, IsBlank, Skip, Begins, Weave, TreeOf, IsSource, Stops, MembersOf, MemberOf,
      TokensOfEntry, IsLiteral;
    var first := TokensOfEntry(entries[0]);
    var k := |first|;
    var last := |entries| == 1;
    var others := if last then ["}"] else [","] + (EntryTokens(entries[1..]) + ["}"]);
    assert EntryTokens(entries) + ["}"] == first + others;
    WeaveSplit(first, others, gaps);
    var after := Weave(others, gaps[k..]) + rest;
    var s := Weave(EntryTokens(entries) + ["}"], gaps) + rest;
    assert s == Weave(first, gaps[..k]) + after;
    AfterSeparator(others, gaps[k..], rest);
    EntryIsRead(entries[0], gaps[..k], after);
    MembersUnfold(s);
    MembersStep(entries);
    var t := Skip(after);
    if last {
      assert t == "}" + rest && entries[1..] == [];
      assert MembersOf(entries[1..]) == [];
    } else {
      assert others[1..] == EntryTokens(entries[1..]) + ["}"] && gaps[k..][1..] == gaps[k + 1..];
      var more := Weave(others[1..], gaps[k + 1..]) + rest;
      assert t == "," + more && t[1..] == more;
      EntriesAreRead(entries[1..], gaps[k + 1..], rest);
    }
  }
}
