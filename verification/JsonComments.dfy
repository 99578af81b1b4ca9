/** What the minifier is for: a text with comments and white space between its tokens, in whatever amount, is reduced
    to its tokens, which the parser then reads as the tree they spell. */
module JsonComments {
  import opened Common
  import opened JsonText
  import opened JsonStrings
  import opened JsonParser
  import opened JsonNumerals
  import opened JsonRoundTrip
  import opened JsonPrinter
  import opened CStrings
  import opened JsonMinify
  import opened JsonGrammar
  import JsonLanguage

  // ---------- comments ----------

  /** White space, a comment to the end of the line, or one between marks. */
  datatype Filler = Space(c: char) | Line(text: string) | Block(text: string)

  /** A comment between marks must not contain the closing one, and must not begin with a slash: see `ShortComment`. */
  predicate IsFiller(f: Filler) {
    match f
    case Space(c) => c == ' ' || c == '\t' || c == '\r' || c == '\n'
    case Line(text) => NulFree(text) && '\n' !in text
    case Block(text) => NulFree(text) && NoMark(text) && (text == [] || text[0] != '/')
  }

  predicate NoMark(text: string) {
    forall i :: 0 <= i < |text| - 1 ==> !(text[i] == '*' && text[i + 1] == '/')
  }

  function FillerText(f: Filler): string {
    match f
    case Space(c) => [c]
    case Line(text) => "//" + text + "\n"
    case Block(text) => "/*" + text + "*/"
  }

  lemma {:induction false} LineEnds(text: string, rest: string)
    requires '\n' !in text && (rest == [] || rest[0] == '\n')
    ensures LineLength(text + rest) == |text|
  {
    if text == [] {
      assert text + rest == rest;
    } else {
      assert (text + rest)[1..] == text[1..] + rest;
      LineEnds(text[1..], rest);
    }
  }

  /** A comment ends with its line, and the rest of the text is not touched. */
  lemma LineIsDropped(text: string, rest: string)
    requires '\n' !in text
    ensures Minify("//" + text + "\n" + rest) == Minify(rest)
  {
    hide LineLength;
    var (t, after) := ("//" + text, "\n" + rest);
    var s := "//" + text + "\n" + rest;
    assert s == t + after;
    LineEnds(t, after);
    assert s[|t|..] == after && after[1..] == rest && s[..2] == "//";
    assert Minify(s) == Minify(after);
  }

  lemma LastLineIsDropped(text: string)
    requires '\n' !in text
    ensures Minify("//" + text) == Some([])
  {
    hide LineLength;
    var s := "//" + text;
    LineEnds(s, []);
    assert s + [] == s && s[|s|..] == [] && s[..2] == "//";
  }

  lemma {:induction false} BlockEnds(text: string, rest: string)
    requires NoMark(text)
    ensures CommentLength(text + ("*/" + rest)) == Some(|text| + 2)
  {
    var s := text + ("*/" + rest);
    if text == [] {
      assert s[0] == '*' && s[1] == '/';
    } else {
      assert s[1..] == text[1..] + ("*/" + rest);
      assert s[1] == if |text| > 1 then text[1] else '*';
      NoMarkLater(text);
      BlockEnds(text[1..], rest);
    }
  }

  lemma NoMarkLater(text: string)
    requires NoMark(text) && text != []
    ensures NoMark(text[1..]) && (|text| > 1 ==> !(text[0] == '*' && text[1] == '/'))
  {
    forall i | 0 <= i < |text[1..]| - 1
      ensures !(text[1..][i] == '*' && text[1..][i + 1] == '/')
    {
      assert text[1..][i] == text[i + 1];
    }
  }

  lemma {:induction false} BlockDoesNotEnd(text: string)
    requires NoMark(text)
    ensures CommentLength(text) == None
  {
    if text != [] {
      NoMarkLater(text);
      BlockDoesNotEnd(text[1..]);
    }
  }

  lemma MarkFirst(text: string)
    requires NoMark(text) && (text == [] || text[0] != '/')
    ensures NoMark("/*" + text)
  {
    var t := "/*" + text;
    forall i | 0 <= i < |t| - 1
      ensures !(t[i] == '*' && t[i + 1] == '/')
    {
      if i >= 2 {
        assert t[i] == text[i - 2] && t[i + 1] == text[i - 1];
      } else if i == 1 && text != [] {
        assert t[2] == text[0];
      }
    }
  }

  /** A comment between marks goes with its marks, and the rest of the text is not touched. */
  lemma BlockIsDropped(text: string, rest: string)
    requires NoMark(text) && (text == [] || text[0] != '/')
    ensures Minify("/*" + text + "*/" + rest) == Minify(rest)
  {
    hide CommentLength, NoMark;
    var t := "/*" + text;
    var s := "/*" + text + "*/" + rest;
    assert s == t + ("*/" + rest);
    MarkFirst(text);
    BlockEnds(t, rest);
    assert s[0] == '/' && s[1] == '*' && s[..2] == "/*" && s[|t| + 2..] == rest;
  }

  /** Without the closing mark the minifier does not stop at the end of the text. */
  lemma OpenBlockIsRefused(text: string)
    requires NoMark(text) && (text == [] || text[0] != '/')
    ensures Minify("/*" + text) == None
  {
    hide CommentLength, NoMark;
    MarkFirst(text);
    BlockDoesNotEnd("/*" + text);
    var s := "/*" + text;
    assert s[0] == '/' && s[1] == '*' && s[..2] == "/*";
  }

  /** The closing mark may share its star with the opening one: these three characters are a whole comment here. */
  lemma ShortComment(rest: string)
    ensures Minify("/*/" + rest) == Minify(rest)
  {
    hide CommentLength;
    var s := "/*/" + rest;
    assert s == "/" + ("*/" + rest) && s[0] == '/' && s[1] == '*' && s[..2] == "/*" && s[3..] == rest;
    BlockEnds("/", rest);
  }

  lemma FillerIsDropped(f: Filler, rest: string)
    requires IsFiller(f)
    ensures Minify(FillerText(f) + rest) == Minify(rest)
  {
    hide Minify, NoMark;
    match f
    case Space(c) => MinifySpaces([c], rest);
    case Line(text) => LineIsDropped(text, rest);
    case Block(text) => BlockIsDropped(text, rest);
  }

  /** A gap: any number of them. */
  function GapText(fs: seq<Filler>): string {
    if fs == [] then [] else FillerText(fs[0]) + GapText(fs[1..])
  }

  predicate IsGap(fs: seq<Filler>) {
    forall i :: 0 <= i < |fs| ==> IsFiller(fs[i])
  }

  lemma {:induction false} GapIsDropped(fs: seq<Filler>, rest: string)
    requires IsGap(fs)
    ensures Minify(GapText(fs) + rest) == Minify(rest)
  {
    hide Minify, IsFiller, FillerText;
    if fs == [] {
      assert GapText(fs) + rest == rest;
    } else {
      assert GapText(fs) + rest == FillerText(fs[0]) + (GapText(fs[1..]) + rest);
      FillerIsDropped(fs[0], GapText(fs[1..]) + rest);
      GapIsDropped(fs[1..], rest);
    }
  }

  // ---------- tokens ----------

  /** A token is copied as it stands. */
  ghost predicate IsKept(token: string) {
    forall rest :: Minify(token + rest) == Prefixed(token, Minify(rest))
  }

  ghost predicate AllKept(tokens: seq<string>) {
    forall i :: 0 <= i < |tokens| ==> IsKept(tokens[i])
  }

  lemma CopiedIsKept(token: string)
    requires forall i :: 0 <= i < |token| ==> IsCopied(token[i])
    ensures IsKept(token)
  {
    hide Minify;
    forall rest: string
      ensures Minify(token + rest) == Prefixed(token, Minify(rest))
    {
      MinifyCopied(token, rest);
    }
  }

  lemma LiteralInFront(pieces: seq<Token>, rest: string)
    requires IsLiteral(pieces)
    ensures Minify(SpellLiteral(pieces) + rest) == Prefixed(SpellLiteral(pieces), Minify(rest))
  {
    hide BodyLength, LiteralLength, SpellAll, IsLiteral;
    var body := SpellAll(pieces);
    var s := SpellLiteral(pieces) + rest;
    assert s[1..] == body + ("\"" + rest);
    PiecesLength(pieces, "\"" + rest);
    LiteralIsBody(s[1..]);
    assert s[0] == '\"' && s[..|body| + 2] == SpellLiteral(pieces) && s[|body| + 2..] == rest;
  }

  lemma LiteralIsKept(pieces: seq<Token>)
    requires IsLiteral(pieces)
    ensures IsKept(SpellLiteral(pieces))
  {
    hide Minify, SpellLiteral, IsLiteral;
    forall rest: string
      ensures Minify(SpellLiteral(pieces) + rest) == Prefixed(SpellLiteral(pieces), Minify(rest))
    {
      LiteralInFront(pieces, rest);
    }
  }

  lemma NumeralIsKept(n: Numeral)
    requires IsNumeral(n)
    ensures IsKept(SpellNumeral(n))
  {
    ExponentIsCopied(n.exponent);
    CopiedIsKept(SpellNumeral(n));
  }

  lemma ExponentIsCopied(e: Exponent)
    requires IsExponent(e)
    ensures forall i :: 0 <= i < |SpellExponent(e)| ==> IsCopied(SpellExponent(e)[i])
  {
  }

  lemma MarksAreKept()
    ensures IsKept("[") && IsKept("]") && IsKept("{") && IsKept("}") && IsKept(",") && IsKept(":")
    ensures IsKept("null") && IsKept("false") && IsKept("true")
  {
    hide IsKept;
    CopiedIsKept("[");
    CopiedIsKept("]");
    CopiedIsKept("{");
    CopiedIsKept("}");
    CopiedIsKept(",");
    CopiedIsKept(":");
    CopiedIsKept("null");
    CopiedIsKept("false");
    CopiedIsKept("true");
  }

  lemma KeptJoin(a: seq<string>, b: seq<string>)
    requires AllKept(a) && AllKept(b)
    ensures AllKept(a + b)
  {
    hide IsKept;
  }

  lemma {:induction false} TokensAreKept(x: Source)
    requires IsSource(x)
    ensures AllKept(Tokens(x))
    decreases x, 0
  {
    hide IsKept, SpellNumeral, SpellLiteral;
    MarksAreKept();
    match x
    case Figure(n, _) => NumeralIsKept(n);
    case Literal(pieces) => LiteralIsKept(pieces);
    case List(elements) =>
      ElementsAreKept(elements);
      KeptJoin(ElementTokens(elements), ["]"]);
      KeptJoin(["["], ElementTokens(elements) + ["]"]);
    case Record(entries) =>
      EntriesAreKept(entries);
      KeptJoin(EntryTokens(entries), ["}"]);
      KeptJoin(["{"], EntryTokens(entries) + ["}"]);
    case _ =>
  }

  lemma {:induction false} ElementsAreKept(elements: seq<Source>)
    requires forall i :: 0 <= i < |elements| ==> IsSource(elements[i])
    ensures AllKept(ElementTokens(elements))
    decreases elements, 1
  {
    hide IsKept, Tokens;
    if elements != [] {
      MarksAreKept();
      TokensAreKept(elements[0]);
      ElementsAreKept(elements[1..]);
      KeptJoin([","], ElementTokens(elements[1..]));
      KeptJoin(Tokens(elements[0]), [","] + ElementTokens(elements[1..]));
    }
  }

  lemma {:induction false} EntriesAreKept(entries: seq<Entry>)
    requires forall i :: 0 <= i < |entries| ==> IsLiteral(entries[i].key) && IsSource(entries[i].value)
    ensures AllKept(EntryTokens(entries))
    decreases entries, 2
  {
    hide IsKept, SpellLiteral;
    if entries != [] {
      MarksAreKept();
      EntryIsKept(entries[0]);
      EntriesAreKept(entries[1..]);
      KeptJoin([","], EntryTokens(entries[1..]));
      KeptJoin(TokensOfEntry(entries[0]), [","] + EntryTokens(entries[1..]));
    }
  }

  lemma {:induction false} EntryIsKept(e: Entry)
    requires IsLiteral(e.key) && IsSource(e.value)
    ensures AllKept(TokensOfEntry(e))
    decreases e, 1
  {
    hide IsKept, SpellLiteral;
    MarksAreKept();
    LiteralIsKept(e.key);
    TokensAreKept(e.value);
    KeptJoin([":"], Tokens(e.value));
    KeptJoin([SpellLiteral(e.key)], [":"] + Tokens(e.value));
  }

  // ---------- texts ----------

  /** The tokens with nothing between them. */
  function Packed(tokens: seq<string>): string {
    if tokens == [] then [] else tokens[0] + Packed(tokens[1..])
  }

  predicate AllGaps(gaps: seq<seq<Filler>>) {
    forall i :: 0 <= i < |gaps| ==> IsGap(gaps[i])
  }

  function GapTexts(gaps: seq<seq<Filler>>): (t: seq<string>)
    ensures |t| == |gaps|
  {
    seq(|gaps|, i requires 0 <= i < |gaps| => GapText(gaps[i]))
  }

  lemma {:induction false} RowIsMinified(tokens: seq<string>, gaps: seq<seq<Filler>>, rest: string)
    requires |gaps| == |tokens| && AllKept(tokens) && AllGaps(gaps)
    ensures Minify(Weave(tokens, GapTexts(gaps)) + rest) == Prefixed(Packed(tokens), Minify(rest))
  {
    hide Minify, IsGap, GapText, IsKept, Prefixed;
    if tokens == [] {
      assert Weave(tokens, GapTexts(gaps)) + rest == rest;
      PrefixNothing(Minify(rest));
    } else {
      assert GapTexts(gaps)[1..] == GapTexts(gaps[1..]);
      var more := Weave(tokens[1..], GapTexts(gaps[1..])) + rest;
      assert Weave(tokens, GapTexts(gaps)) + rest == GapText(gaps[0]) + (tokens[0] + more);
      GapIsDropped(gaps[0], tokens[0] + more);
      KeptInFront(tokens[0], more);
      RowIsMinified(tokens[1..], gaps[1..], rest);
      PrefixTwice(tokens[0], Packed(tokens[1..]), Minify(rest));
    }
  }

  lemma KeptInFront(token: string, rest: string)
    requires IsKept(token)
    ensures Minify(token + rest) == Prefixed(token, Minify(rest))
  {
  }

  /** A text with comments. */
  function Commented(x: Source, gaps: seq<seq<Filler>>, end: seq<Filler>): string
    requires |gaps| == |Tokens(x)|
  {
    Weave(Tokens(x), GapTexts(gaps)) + GapText(end)
  }

  /** What is left of it are the tokens alone. */
  lemma CommentedIsMinified(x: Source, gaps: seq<seq<Filler>>, end: seq<Filler>)
    requires IsSource(x) && |gaps| == |Tokens(x)| && AllGaps(gaps) && IsGap(end)
    ensures Minify(Commented(x, gaps, end)) == Some(Packed(Tokens(x)))
  {
    hide Minify, IsGap, GapText, IsKept, AllKept, AllGaps, Packed, Weave, IsSource;
    TokensAreKept(x);
    RowIsMinified(Tokens(x), gaps, GapText(end));
    GapIsDropped(end, []);
    MinifyNothing();
    assert GapText(end) + [] == GapText(end) && Packed(Tokens(x)) + [] == Packed(Tokens(x));
  }

  lemma {:induction false} PackedIsWoven(tokens: seq<string>)
    ensures Weave(tokens, seq(|tokens|, _ => [])) == Packed(tokens)
  {
    var gaps: seq<string> := seq(|tokens|, _ => []);
    if tokens != [] {
      assert gaps[1..] == seq(|tokens[1..]|, _ => []);
      PackedIsWoven(tokens[1..]);
      assert gaps[0] + tokens[0] == tokens[0];
    }
  }

  /** Minifying a text with comments and parsing the result gives the tree that was written. */
  lemma CommentedIsRead(x: Source, gaps: seq<seq<Filler>>, end: seq<Filler>)
    requires IsSource(x) && |gaps| == |Tokens(x)| && AllGaps(gaps) && IsGap(end)
    ensures Minify(Commented(x, gaps, end)).Some?
    ensures Parse(Minify(Commented(x, gaps, end)).value, true) == Ok(TreeOf(x), [])
  {
    hide Minify, IsGap, AllGaps, Packed, Weave, IsSource, Parse, TreeOf;
    CommentedIsMinified(x, gaps, end);
    PackedIsWoven(Tokens(x));
    var none: seq<string> := seq(|Tokens(x)|, _ => []);
    var text := Packed(Tokens(x));
    assert text + [] == text;
    JsonLanguage.TextIsRead(text, x, none, []);
  }

  // ---------- as C strings ----------

  lemma NulFreeJoin(a: string, b: string)
    requires NulFree(a) && NulFree(b)
    ensures NulFree(a + b)
  {
  }

  lemma PieceNulFree(p: Token)
    requires IsLiteral([p])
    ensures NulFree(Spell(p))
  {
    assert Legal([p][0]);
    assert [p][0] == p;
  }

  lemma {:induction false} PiecesNulFree(pieces: seq<Token>)
    requires IsLiteral(pieces)
    ensures NulFree(SpellAll(pieces))
  {
    hide Spell, Legal, NulFree;
    if pieces != [] {
      assert IsLiteral([pieces[0]]) && forall i :: 0 <= i < |pieces| - 1 ==> pieces[1..][i] == pieces[i + 1];
      PieceNulFree(pieces[0]);
      PiecesNulFree(pieces[1..]);
      NulFreeJoin(Spell(pieces[0]), SpellAll(pieces[1..]));
    } else {
      NoNul();
    }
  }

  lemma NoNul()
    ensures NulFree([])
  {
  }

  ghost predicate AllNulFree(tokens: seq<string>) {
    forall i :: 0 <= i < |tokens| ==> NulFree(tokens[i])
  }

  lemma NumeralNulFree(n: Numeral)
    requires IsNumeral(n)
    ensures NulFree(SpellNumeral(n))
  {
    ExponentIsCopied(n.exponent);
    assert NulFree(SpellExponent(n.exponent));
  }

  lemma LiteralNulFree(pieces: seq<Token>)
    requires IsLiteral(pieces)
    ensures NulFree(SpellLiteral(pieces))
  {
    PiecesNulFree(pieces);
  }

  lemma {:induction false} TokensNulFree(x: Source)
    requires IsSource(x)
    ensures AllNulFree(Tokens(x))
    decreases x, 0
  {
    hide SpellNumeral, SpellLiteral;
    match x
    case Figure(n, _) => NumeralNulFree(n);
    case Literal(pieces) => LiteralNulFree(pieces);
    case List(elements) => ElementsNulFree(elements);
    case Record(entries) => EntriesNulFree(entries);
    case _ =>
  }

  lemma {:induction false} ElementsNulFree(elements: seq<Source>)
    requires forall i :: 0 <= i < |elements| ==> IsSource(elements[i])
    ensures AllNulFree(ElementTokens(elements))
    decreases elements, 1
  {
    hide Tokens;
    if elements != [] {
      TokensNulFree(elements[0]);
      ElementsNulFree(elements[1..]);
    }
  }

  lemma {:induction false} EntriesNulFree(entries: seq<Entry>)
    requires forall i :: 0 <= i < |entries| ==> IsLiteral(entries[i].key) && IsSource(entries[i].value)
    ensures AllNulFree(EntryTokens(entries))
    decreases entries, 2
  {
    hide Tokens, SpellLiteral;
    if entries != [] {
      LiteralNulFree(entries[0].key);
      TokensNulFree(entries[0].value);
      EntriesNulFree(entries[1..]);
    }
  }

  lemma {:induction false} GapNulFree(fs: seq<Filler>)
    requires IsGap(fs)
    ensures NulFree(GapText(fs))
  {
    if fs != [] {
      GapNulFree(fs[1..]);
      assert NulFree(FillerText(fs[0]));
    }
  }

  lemma {:induction false} RowNulFree(tokens: seq<string>, gaps: seq<seq<Filler>>)
    requires |gaps| == |tokens| && AllNulFree(tokens) && AllGaps(gaps)
    ensures NulFree(Weave(tokens, GapTexts(gaps)))
  {
    hide NulFree, IsGap;
    if tokens == [] {
      NoNul();
    } else {
      assert GapTexts(gaps)[1..] == GapTexts(gaps[1..]);
      GapNulFree(gaps[0]);
      RowNulFree(tokens[1..], gaps[1..]);
      NulFreeJoin(GapText(gaps[0]), tokens[0]);
      NulFreeJoin(GapText(gaps[0]) + tokens[0], Weave(tokens[1..], GapTexts(gaps[1..])));
    }
  }

  lemma CommentedNulFree(x: Source, gaps: seq<seq<Filler>>, end: seq<Filler>)
    requires IsSource(x) && |gaps| == |Tokens(x)| && AllGaps(gaps) && IsGap(end)
    ensures NulFree(Commented(x, gaps, end))
  {
    hide NulFree, IsGap, AllGaps, IsSource, Weave;
    TokensNulFree(x);
    RowNulFree(Tokens(x), gaps);
    GapNulFree(end);
    NulFreeJoin(Weave(Tokens(x), GapTexts(gaps)), GapText(end));
  }
}
