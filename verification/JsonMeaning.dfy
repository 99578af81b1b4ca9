/** Minifying keeps the meaning of every text that the parser accepts, whoever wrote it. */
module JsonMeaning {
  import opened Common
  import opened JsonText
  import opened JsonStrings
  import opened JsonParser
  import opened JsonParserCode
  import opened JsonNumerals
  import opened JsonRoundTrip
  import opened JsonMinify

  function Minified(s: string): string
    requires Minify(s).Some?
  {
    Minify(s).value
  }

  predicate AllInNumber(p: string) {
    forall i :: 0 <= i < |p| ==> InNumber(p[i])
  }

  // ---------- numbers are read the same whatever stops them ----------

  lemma {:induction false} DigitsPart(s: string, acc: real, after: string) returns (p: string)
    requires !IsDigit(At(after, 0))
    ensures var (n, rest) := TakeDigits(s, acc);
      s == p + rest && AllInNumber(p) && (p != [] ==> IsDigit(p[0])) && TakeDigits(p + after, acc) == (n, after)
    decreases |s|
  {
    hide TakeDigits;
    if s != [] && IsDigit(s[0]) {
      var next := TakeOne(s, s, acc);
      var q := DigitsPart(s[1..], next, after);
      p := [s[0]] + q;
      assert (p + after)[1..] == q + after;
      var again := TakeOne(s, p + after, acc);
    } else {
      p := [];
      TakeNone(s, acc);
      TakeNone(after, acc);
      assert [] + s == s && [] + after == after;
    }
  }

  lemma TakeOne(s: string, t: string, acc: real) returns (next: real)
    requires s != [] && t != [] && s[0] == t[0] && IsDigit(s[0])
    ensures next == acc * 10.0 + DigitValue(s[0]) as real && TakeDigits(t, acc) == TakeDigits(t[1..], next)
  {
    next := acc * 10.0 + DigitValue(s[0]) as real;
  }

  lemma TakeNone(s: string, acc: real)
    requires !IsDigit(At(s, 0))
    ensures TakeDigits(s, acc) == (acc, s)
  {
  }

  lemma {:induction false} IntPart(s: string, acc: int, after: string) returns (p: string)
    requires !IsDigit(At(after, 0))
    ensures var (n, rest) := TakeInt(s, acc);
      s == p + rest && AllInNumber(p) && (p != [] ==> IsDigit(p[0])) && TakeInt(p + after, acc) == (n, after)
    decreases |s|
  {
    if s != [] && IsDigit(s[0]) {
      var q := IntPart(s[1..], acc * 10 + DigitValue(s[0]), after);
      p := [s[0]] + q;
      assert (p + after)[1..] == q + after;
    } else {
      p := [];
      assert [] + s == s && [] + after == after;
    }
  }

  lemma FractionPart(s: string, n: real, after: string) returns (p: string)
    requires !IsDigit(At(after, 0)) && At(after, 0) != '.'
    ensures var (m, scale, rest) := ParseFraction(s, n);
      s == p + rest && AllInNumber(p) && (p != [] ==> p[0] == '.') && ParseFraction(p + after, n) == (m, scale, after)
  {
    hide TakeDigits;
    if At(s, 0) == '.' && IsDigit(At(s, 1)) {
      DigitTaken(s[1..], n);
      var q := DigitsPart(s[1..], n, after);
      p := ['.'] + q;
      assert (p + after)[1..] == q + after;
    } else {
      p := [];
      assert [] + s == s && [] + after == after;
    }
  }

  lemma DigitTaken(s: string, acc: real)
    requires s != [] && IsDigit(s[0])
    ensures |TakeDigits(s, acc).1| < |s|
  {
  }

  /** The mark of an exponent and its sign. */
  function ExponentHead(s: string): (n: nat)
    ensures n <= |s|
  {
    if At(s, 0) != 'e' && At(s, 0) != 'E' then 0 else if At(s, 1) == '+' || At(s, 1) == '-' then 2 else 1
  }

  lemma ExponentIs(s: string)
    ensures var n := ExponentHead(s); var (k, rest) := TakeInt(s[n..], 0);
      ParseExponent(s) == if n == 0 then (0, s) else (if At(s, 1) == '-' then -k else k, rest)
  {
    hide TakeInt;
  }

  lemma SameHead(s: string, n: nat, q: string, after: string)
    requires n == ExponentHead(s) > 0 && Stops(after) && (q != [] ==> IsDigit(q[0]))
    ensures var t := s[..n] + q + after;
      ExponentHead(t) == n && t[n..] == q + after && (At(t, 1) == '-' <==> At(s, 1) == '-')
    ensures AllInNumber(s[..n]) && (s[0] == 'e' || s[0] == 'E')
  {
    var t := s[..n] + q + after;
    assert t[n..] == q + after && t[0] == s[0] && (n == 2 ==> t[1] == s[1]);
    assert n == 1 ==> At(t, 1) == At(q + after, 0);
  }

  lemma ExponentPart(s: string, after: string) returns (p: string)
    requires Stops(after)
    ensures var (k, rest) := ParseExponent(s);
      s == p + rest && AllInNumber(p) && (p != [] ==> p[0] == 'e' || p[0] == 'E') && ParseExponent(p + after) == (k, after)
  {
    hide TakeInt, ParseExponent, IsDigit, AllInNumber, ExponentHead;
    var n := ExponentHead(s);
    ExponentIs(s);
    if n > 0 {
      var q := IntPart(s[n..], 0, after);
      p := s[..n] + q;
      SameHead(s, n, q, after);
      ExponentIs(p + after);
      AllJoin(s[..n], q);
      assert s == s[..n] + s[n..];
    } else {
      p := [];
      NoHead(s, after);
      ExponentIs(after);
    }
  }

  lemma NoHead(s: string, after: string)
    requires Stops(after)
    ensures AllInNumber([]) && ExponentHead(after) == 0 && [] + s == s && [] + after == after
  {
  }

  lemma JoinFour(a: string, b: string, c: string, d: string, e: string)
    ensures a + (b + (c + d)) + e == a + (b + (c + (d + e)))
  {
  }

  lemma AllShort()
    ensures AllInNumber([]) && AllInNumber(['0'])
  {
  }

  lemma AllJoin(a: string, b: string)
    requires AllInNumber(a) && AllInNumber(b)
    ensures AllInNumber(a + b)
  {
  }

  lemma UnsignedPart(s: string, after: string) returns (p: string)
    requires Stops(after)
    ensures var r := ParseUnsigned(s);
      s == p + r.1 && AllInNumber(p) && ParseUnsigned(p + after).0 == r.0 && ParseUnsigned(p + after).1 == after
  {
    hide TakeDigits, ParseFraction, ParseExponent, Pow10, ParseUnsigned, AllInNumber;
    var zero := if At(s, 0) == '0' then ['0'] else [];
    var s1 := if At(s, 0) == '0' then s[1..] else s;
    var (n, s2) := if '1' <= At(s1, 0) <= '9' then TakeDigits(s1, 0.0) else (0.0, s1);
    var (m, scale, s3) := ParseFraction(s2, n);
    var (k, rest) := ParseExponent(s3);
    var x := ExponentPart(s3, after);
    var f := FractionPart(s2, n, x + after);
    var d: string := [];
    if '1' <= At(s1, 0) <= '9' {
      DigitTaken(s1, 0.0);
      d := DigitsPart(s1, 0.0, f + (x + after));
    } else {
      AllShort();
      assert [] + s1 == s1 && [] + (f + (x + after)) == f + (x + after);
    }
    p := zero + (d + (f + x));
    AllShort();
    AllJoin(f, x);
    AllJoin(d, f + x);
    AllJoin(zero, d + (f + x));
    UnsignedParts(s, s1, n, s2, m, scale, s3, k, rest);
    JoinFour(zero, d, f, x, rest);
    assert zero + s1 == s;
    JoinFour(zero, d, f, x, after);
    var t1 := d + (f + (x + after));
    assert At(t1, 0) == '0' ==> zero != [];
    assert (zero + t1)[|zero|..] == t1;
    UnsignedParts(zero + t1, t1, n, f + (x + after), m, scale, x + after, k, after);
  }

  lemma NumberPart(s: string, after: string) returns (p: string)
    requires Stops(after)
    ensures var r := ParseNumber(s);
      s == p + r.1 && AllInNumber(p) && ParseNumber(p + after).0 == r.0 && ParseNumber(p + after).1 == after
  {
    hide ParseUnsigned;
    if At(s, 0) == '-' {
      var q := UnsignedPart(s[1..], after);
      p := ['-'] + q;
      assert (p + after)[1..] == q + after;
    } else {
      p := UnsignedPart(s, after);
      NoSign(s, p, ParseNumber(s).1, after);
    }
  }

  lemma NoSign(s: string, p: string, rest: string, after: string)
    requires s == p + rest && At(s, 0) != '-' && At(after, 0) != '-'
    ensures At(p + after, 0) != '-'
  {
  }

  // ---------- white space and single characters ----------

  /** A character that neither is space nor can start a comment or a literal stays in front. */
  lemma KeepOne(s: string)
    requires Minify(s).Some? && s != [] && IsCopied(s[0])
    ensures Minify(s[1..]).Some? && Minified(s) == [s[0]] + Minified(s[1..])
  {
  }

  lemma KeepFirst(s: string)
    requires Minify(s).Some? && s != [] && !IsSpace(s[0]) && s[0] != '/'
    ensures Minified(s) != [] && Minified(s)[0] == s[0]
  {
  }

  lemma DropOne(s: string)
    requires Minify(s).Some? && s != [] && IsSpace(s[0])
    ensures Minify(s[1..]).Some? && Minified(s) == Minified(s[1..])
  {
  }

  /** What the parser skips stays skippable: the parser knows more kinds of white space than the minifier. */
  lemma {:induction false} KeepSkip(s: string)
    requires NulFree(s) && Minify(s).Some? && At(Skip(s), 0) != '/'
    ensures var u := Skip(s);
      && NulFree(u) && Minify(u).Some? && Skip(Minified(s)) == Minified(u)
      && At(Minified(u), 0) == At(u, 0)
    ensures At(Skip(s), 0) in ",]}" || Skip(s) == [] ==> Stops(Minified(s))
    decreases |s|
  {
    hide Minify;
    if s == [] {
      MinifyNothing();
    } else if IsSpace(s[0]) {
      DropOne(s);
      KeepSkip(s[1..]);
    } else if s[0] as int <= 32 {
      KeepOne(s);
      KeepSkip(s[1..]);
      assert Minified(s)[1..] == Minified(s[1..]);
    } else {
      KeepFirst(s);
    }
  }

  // ---------- literals ----------

  /** Where both the parser and the minifier find an end of a literal, it is the same closing quote. */
  lemma {:induction false} SameEnd(t: string)
    requires NulFree(t) && BodyLength(t).Some? && LiteralLength(t).Some?
    ensures var n := BodyLength(t).value; n < |t| && t[n] == '\"' && LiteralLength(t) == Some(n + 1)
    decreases |t|
  {
    if t != [] && t[0] == '\\' {
      SameEnd(t[2..]);
    } else if t != [] && t[0] != '\"' {
      SameEnd(t[1..]);
    }
  }

  lemma {:induction false} SameBody(t: string, n: nat, after: string)
    requires BodyLength(t) == Some(n) && n < |t| && t[n] == '\"'
    ensures BodyLength(t[..n + 1] + after) == Some(n)
    decreases |t|
  {
    if n > 0 {
      var k := if t[0] == '\\' then 2 else 1;
      SameBody(t[k..], n - k, after);
      assert (t[..n + 1] + after)[k..] == t[k..][..n - k + 1] + after;
    }
  }

  lemma KeepString(s: string)
    requires NulFree(s) && Minify(s).Some? && ParseString(s).Ok?
    ensures var r := ParseString(s);
      NulFree(r.rest) && Minify(r.rest).Some? && ParseString(Minified(s)) == Ok(r.value, Minified(r.rest))
  {
    hide Minify, BodyLength, LiteralLength, Decode;
    var t := s[1..];
    var n := BodyLength(t).value;
    assert s[0..] == s;
    LiteralAt(s, 0);
    SameEnd(t);
    var rest := t[n + 1..];
    assert s[n + 2..] == rest && s[0..n + 2][1..] == t[..n + 1];
    var after := Minified(rest);
    assert Minified(s)[1..] == t[..n + 1] + after;
    SameBody(t, n, after);
    assert (t[..n + 1] + after)[..n] == t[..n] && (t[..n + 1] + after)[n + 1..] == after;
  }

  // ---------- values ----------

  lemma KeepWord(s: string, word: string)
    requires NulFree(s) && Minify(s).Some? && word <= s && word in ["null", "false", "true"]
    ensures NulFree(s[|word|..]) && Minify(s[|word|..]).Some? && Minified(s) == word + Minified(s[|word|..])
  {
    hide Minify;
    assert s == word + s[|word|..];
    MinifyCopied(word, s[|word|..]);
  }

  lemma KeepNumber(s: string)
    requires NulFree(s) && Minify(s).Some? && (At(s, 0) == '-' || IsDigit(At(s, 0)))
    ensures var rest := ParseNumber(s).1;
      && NulFree(rest) && Minify(rest).Some? && Minified(s) != [] && Minified(s)[0] == s[0]
      && (Stops(Minified(rest)) ==>
            ParseNumber(Minified(s)).0 == ParseNumber(s).0 && ParseNumber(Minified(s)).1 == Minified(rest))
  {
    hide Minify, ParseNumber;
    var rest := ParseNumber(s).1;
    var p := NumberPart(s, []);
    MinifyCopied(p, rest);
    KeepFirst(s);
    if Stops(Minified(rest)) {
      var q := NumberPart(s, Minified(rest));
      assert |q| == |p| && q == s[..|p|] == p;
    }
  }

  /** What a value starts with. */
  lemma OkStart(s: string)
    requires ParseValue(s).Ok?
    ensures s != [] && s[0] as int > 32 && s[0] != '/' && s[0] != ']' && s[0] != '}' && s[0] != ','
  {
    hide ParseString, ParseNumber, ParseItems, ParseMembers, Skip;
  }

  /** A value is read from the minified text as from the text itself, if what follows ends it. */
  lemma {:induction false} KeepValue(s: string)
    requires NulFree(s) && Minify(s).Some? && ParseValue(s).Ok?
    ensures var r := ParseValue(s);
      && NulFree(r.rest) && Minify(r.rest).Some?
      && (Stops(Minified(r.rest)) ==> ParseValue(Minified(s)) == Ok(r.value, Minified(r.rest)))
    decreases |s|, 2
  {
    hide Minify, ParseValue, ParseString, ParseNumber, NulFree;
    OkStart(s);
    KeepFirst(s);
    if s[0] == '[' {
      KeepArray(s);
    } else if s[0] == '{' {
      KeepObject(s);
    } else {
      var m := Minified(s);
      ValueUnfold(s);
      ValueUnfold(m);
      if "null" <= s {
        KeepWord(s, "null");
      } else if "false" <= s {
        KeepWord(s, "false");
      } else if "true" <= s {
        KeepWord(s, "true");
      } else if s[0] == '\"' {
        KeepString(s);
      } else {
        KeepNumber(s);
      }
    }
  }

  lemma {:induction false} KeepArray(s: string)
    requires NulFree(s) && Minify(s).Some? && ParseValue(s).Ok? && s[0] == '['
    ensures var r := ParseValue(s);
      NulFree(r.rest) && Minify(r.rest).Some? && ParseValue(Minified(s)) == Ok(r.value, Minified(r.rest))
    decreases |s|, 1
  {
    hide Minify, ParseValue, ParseItems, Skip;
    KeepOne(s);
    ArrayUnfold(s);
    ArrayUnfold(Minified(s));
    var t := Skip(s[1..]);
    if At(t, 0) != ']' {
      SkipTwice(s[1..]);
      ItemsStart(t);
    }
    KeepSkip(s[1..]);
    assert Minified(s)[1..] == Minified(s[1..]);
    if At(t, 0) == ']' {
      KeepOne(t);
    } else {
      KeepItems(t);
    }
  }

  lemma ItemsStart(t: string)
    requires ParseItems(t).Ok?
    ensures At(Skip(t), 0) != '/'
  {
    hide ParseValue;
    OkStart(Skip(t));
  }

  lemma {:induction false} SkipTwice(t: string)
    ensures Skip(Skip(t)) == Skip(t)
  {
    if t != [] && t[0] != '\0' && t[0] as int <= 32 {
      SkipTwice(t[1..]);
    }
  }

  lemma {:induction false} KeepItems(s: string)
    requires NulFree(s) && Minify(s).Some? && ParseItems(s).Ok?
    ensures var r := ParseItems(s);
      NulFree(r.rest) && Minify(r.rest).Some? && ParseItems(Minified(s)) == Ok(r.value, Minified(r.rest))
    decreases |s|, 3
  {
    hide Minify, ParseValue, Skip, NulFree;
    var u := Skip(s);
    var r := ParseValue(u);
    OkStart(u);
    KeepSkip(s);
    KeepValue(u);
    var t := Skip(r.rest);
    KeepSkip(r.rest);
    KeepOne(t);
    NulFreeTail(t);
    if At(t, 0) == ',' {
      KeepItems(t[1..]);
    }
    assert Minified(t)[1..] == Minified(t[1..]);
  }

  lemma NulFreeTail(t: string)
    ensures NulFree(t) && t != [] ==> NulFree(t[1..])
  {
  }

  lemma {:induction false} KeepObject(s: string)
    requires NulFree(s) && Minify(s).Some? && ParseValue(s).Ok? && s[0] == '{'
    ensures var r := ParseValue(s);
      NulFree(r.rest) && Minify(r.rest).Some? && ParseValue(Minified(s)) == Ok(r.value, Minified(r.rest))
    decreases |s|, 1
  {
    hide Minify, ParseValue, ParseMembers, Skip;
    KeepOne(s);
    ObjectUnfold(s);
    ObjectUnfold(Minified(s));
    var t := Skip(s[1..]);
    if At(t, 0) != '}' {
      SkipTwice(s[1..]);
      MembersBegin(t);
    }
    KeepSkip(s[1..]);
    assert Minified(s)[1..] == Minified(s[1..]);
    if At(t, 0) == '}' {
      KeepOne(t);
    } else {
      KeepMembers(t);
    }
  }

  lemma MembersBegin(t: string)
    requires ParseMembers(t).Ok?
    ensures At(Skip(t), 0) == '\"'
  {
    hide ParseValue;
    assert ParseMember(t).Ok?;
  }

  lemma {:induction false} KeepMember(s: string)
    requires NulFree(s) && Minify(s).Some? && ParseMember(s).Ok?
    ensures var r := ParseMember(s);
      && NulFree(r.rest) && Minify(r.rest).Some?
      && (Stops(Minified(r.rest)) ==> ParseMember(Minified(s)) == Ok(r.value, Minified(r.rest)))
    decreases |s|, 3
  {
    hide Minify, ParseValue, ParseString, Skip, NulFree;
    var u := Skip(s);
    KeyStart(u);
    KeepSkip(s);
    KeepString(u);
    var rest := ParseString(u).rest;
    var t := Skip(rest);
    KeepSkip(rest);
    KeepOne(t);
    NulFreeTail(t);
    assert Minified(t)[1..] == Minified(t[1..]);
    var w := Skip(t[1..]);
    OkStart(w);
    KeepSkip(t[1..]);
    KeepValue(w);
  }

  lemma KeyStart(s: string)
    requires ParseString(s).Ok?
    ensures At(s, 0) == '\"'
  {
  }

  lemma {:induction false} KeepMembers(s: string)
    requires NulFree(s) && Minify(s).Some? && ParseMembers(s).Ok?
    ensures var r := ParseMembers(s);
      NulFree(r.rest) && Minify(r.rest).Some? && ParseMembers(Minified(s)) == Ok(r.value, Minified(r.rest))
    decreases |s|, 4
  {
    hide Minify, ParseMember, Skip, NulFree;
    var r := ParseMember(s);
    KeepMember(s);
    var t := Skip(r.rest);
    KeepSkip(r.rest);
    KeepOne(t);
    NulFreeTail(t);
    if At(t, 0) == ',' {
      KeepMembers(t[1..]);
    }
    assert Minified(t)[1..] == Minified(t[1..]);
  }

  // ---------- which accepted texts can be minified ----------

  /** A literal that lacks its closing quote; the parser lets the end of the input stand for it. */
  predicate OpenLiteral(s: string) {
    At(s, 0) == '\"' && BodyLength(s[1..]) == Some(|s| - 1)
  }

  lemma SkipMinifies(s: string)
    requires NulFree(s) && At(Skip(s), 0) != '/'
    ensures Minify(Skip(s)).Some? <==> Minify(s).Some?
    ensures NulFree(Skip(s))
    decreases |s|
  {
    hide Minify;
    if s != [] && s[0] as int <= 32 {
      FrontMinifies(s);
      SkipMinifies(s[1..]);
    }
  }

  /** A space or a character that is copied on its own does not decide. */
  lemma FrontMinifies(s: string)
    requires s != [] && (IsSpace(s[0]) || IsCopied(s[0]))
    ensures Minify(s).Some? <==> Minify(s[1..]).Some?
  {
  }

  lemma StringMinifies(s: string)
    requires NulFree(s) && ParseString(s).Ok?
    ensures NulFree(ParseString(s).rest) && (OpenLiteral(s) ==> ParseString(s).rest == [] && Minify(s).None?)
    ensures !OpenLiteral(s) && Minify(ParseString(s).rest).Some? ==> Minify(s).Some?
  {
    hide BodyLength, LiteralLength, Decode;
    var t := s[1..];
    var n := BodyLength(t).value;
    StopsAtQuote(t);
    if n < |t| {
      LiteralIsBody(t);
      assert s[n + 2..] == t[n + 1..];
    } else if LiteralLength(t).Some? {
      SameEnd(t);
    }
  }

  lemma {:induction false} StopsAtQuote(t: string)
    requires NulFree(t) && BodyLength(t).Some?
    ensures var n := BodyLength(t).value; n < |t| ==> t[n] == '\"'
    decreases |t|
  {
    if t != [] && t[0] == '\\' {
      StopsAtQuote(t[2..]);
    } else if t != [] && t[0] != '\"' {
      StopsAtQuote(t[1..]);
    }
  }

  lemma {:induction false} ValueMinifies(s: string)
    requires NulFree(s) && ParseValue(s).Ok? && !OpenLiteral(s)
    ensures NulFree(ParseValue(s).rest) && (Minify(ParseValue(s).rest).Some? ==> Minify(s).Some?)
    decreases |s|, 2
  {
    hide Minify, ParseValue, ParseString, ParseNumber, NulFree, OpenLiteral;
    OkStart(s);
    if s[0] == '[' || s[0] == '{' {
      NestedMinifies(s);
    } else {
      ValueUnfold(s);
      if "null" <= s {
        WordMinifies(s, "null");
      } else if "false" <= s {
        WordMinifies(s, "false");
      } else if "true" <= s {
        WordMinifies(s, "true");
      } else if s[0] == '\"' {
        StringMinifies(s);
      } else {
        NumberMinifies(s);
      }
    }
  }

  lemma WordMinifies(s: string, word: string)
    requires NulFree(s) && word <= s && word in ["null", "false", "true"]
    ensures NulFree(s[|word|..]) && (Minify(s[|word|..]).Some? ==> Minify(s).Some?)
  {
    hide Minify;
    assert s == word + s[|word|..];
    MinifyCopied(word, s[|word|..]);
  }

  lemma NumberMinifies(s: string)
    requires NulFree(s)
    ensures var rest := ParseNumber(s).1; NulFree(rest) && (Minify(rest).Some? ==> Minify(s).Some?)
  {
    hide Minify, ParseNumber;
    var rest := ParseNumber(s).1;
    var p := NumberPart(s, []);
    MinifyCopied(p, rest);
    assert s == p + rest && rest == s[|p|..];
  }

  lemma {:induction false} NestedMinifies(s: string)
    requires NulFree(s) && ParseValue(s).Ok? && s != [] && (s[0] == '[' || s[0] == '{')
    ensures NulFree(ParseValue(s).rest) && (Minify(ParseValue(s).rest).Some? ==> Minify(s).Some?)
    decreases |s|, 1
  {
    hide Minify, ParseValue, ParseItems, ParseMembers, Skip;
    FrontMinifies(s);
    var t := Skip(s[1..]);
    SkipTwice(s[1..]);
    if s[0] == '[' {
      ArrayUnfold(s);
      if At(t, 0) != ']' {
        ItemsStart(t);
      }
    } else {
      ObjectUnfold(s);
      if At(t, 0) != '}' {
        MembersBegin(t);
      }
    }
    SkipMinifies(s[1..]);
    if At(t, 0) == (if s[0] == '[' then ']' else '}') {
      FrontMinifies(t);
    } else if s[0] == '[' {
      ItemsMinify(t);
    } else {
      MembersMinify(t);
    }
  }

  /** A value that something follows is no open literal. */
  lemma FollowedIsClosed(s: string)
    requires NulFree(s) && ParseValue(s).Ok? && ParseValue(s).rest != []
    ensures !OpenLiteral(s)
  {
    hide ParseValue, ParseString, OpenLiteral;
    if At(s, 0) == '\"' {
      ValueUnfold(s);
      StringMinifies(s);
    } else {
      NotQuoted(s);
    }
  }

  lemma NotQuoted(s: string)
    requires At(s, 0) != '\"'
    ensures !OpenLiteral(s)
  {
  }

  lemma {:induction false} ItemsMinify(s: string)
    requires NulFree(s) && ParseItems(s).Ok?
    ensures NulFree(ParseItems(s).rest) && (Minify(ParseItems(s).rest).Some? ==> Minify(s).Some?)
    decreases |s|, 3
  {
    hide Minify, ParseValue, Skip, NulFree, OpenLiteral;
    var u := Skip(s);
    var r := ParseValue(u);
    OkStart(u);
    SkipMinifies(s);
    var t := Skip(r.rest);
    SkipNone();
    FollowedIsClosed(u);
    ValueMinifies(u);
    SkipMinifies(r.rest);
    FrontMinifies(t);
    NulFreeTail(t);
    if At(t, 0) == ',' {
      ItemsMinify(t[1..]);
    }
  }

  lemma SkipNone()
    ensures Skip([]) == []
  {
  }

  lemma {:induction false} MembersMinify(s: string)
    requires NulFree(s) && ParseMembers(s).Ok?
    ensures NulFree(ParseMembers(s).rest) && (Minify(ParseMembers(s).rest).Some? ==> Minify(s).Some?)
    decreases |s|, 4
  {
    hide Minify, ParseMember, Skip, NulFree;
    var r := ParseMember(s);
    var t := Skip(r.rest);
    SkipNone();
    MemberMinifies(s);
    SkipMinifies(r.rest);
    FrontMinifies(t);
    NulFreeTail(t);
    if At(t, 0) == ',' {
      MembersMinify(t[1..]);
    }
  }

  lemma {:induction false} MemberMinifies(s: string)
    requires NulFree(s) && ParseMember(s).Ok? && ParseMember(s).rest != []
    ensures NulFree(ParseMember(s).rest) && (Minify(ParseMember(s).rest).Some? ==> Minify(s).Some?)
    decreases |s|, 3
  {
    hide Minify, ParseValue, ParseString, Skip, NulFree, OpenLiteral;
    var u := Skip(s);
    KeyStart(u);
    SkipMinifies(s);
    StringMinifies(u);
    var rest := ParseString(u).rest;
    var t := Skip(rest);
    SkipNone();
    SkipMinifies(rest);
    FrontMinifies(t);
    NulFreeTail(t);
    var w := Skip(t[1..]);
    OkStart(w);
    SkipMinifies(t[1..]);
    FollowedIsClosed(w);
    ValueMinifies(w);
  }

  /** Of the C strings that the parser accepts as a whole, all can be minified except a single literal without its
      closing quote; and what is minified is accepted again, as the same tree. */
  lemma MinifyKeepsMeaning(text: string)
    requires NulFree(text) && Parse(text, true).Ok?
    ensures Minify(text).None? <==> OpenLiteral(Skip(text))
    ensures Minify(text).Some? ==> Parse(Minify(text).value, true) == Ok(Parse(text, true).value, [])
  {
    hide Minify, ParseValue, Skip, NulFree, OpenLiteral;
    var u := Skip(text);
    var r := ParseValue(u);
    OkStart(u);
    SkipMinifies(text);
    if OpenLiteral(u) {
      OpenIsString(u);
      StringMinifies(u);
    } else {
      ValueMinifies(u);
      AllSkipped(r.rest);
      SkipMinifies(r.rest);
      MinifyNothing();
      MinifiedIsAccepted(text);
    }
  }

  lemma OpenIsString(s: string)
    requires OpenLiteral(s) && ParseValue(s).Ok?
    ensures ParseString(s).Ok?
  {
    hide ParseString, ParseValue, BodyLength;
    ValueUnfold(s);
  }

  lemma MinifiedIsAccepted(text: string)
    requires NulFree(text) && Minify(text).Some? && Parse(text, true).Ok?
    ensures Parse(Minified(text), true) == Ok(Parse(text, true).value, [])
  {
    hide Minify, ParseValue, Skip, NulFree;
    var u := Skip(text);
    var r := ParseValue(u);
    OkStart(u);
    KeepSkip(text);
    KeepValue(u);
    KeepSkip(r.rest);
    AllSkipped(r.rest);
    MinifyNothing();
  }

  lemma {:induction false} AllSkipped(s: string)
    requires NulFree(s) && At(Skip(s), 0) == '\0'
    ensures Skip(s) == []
  {
    if s != [] {
      AllSkipped(s[1..]);
    }
  }

  /** The shortest text on which the minifier runs past the end: a single quote, which the parser takes for an
      empty string. */
  lemma OpenLiteralIsAccepted()
    ensures Parse("\"", true) == Ok(String(""), []) && OpenLiteral("\"") && Minify("\"").None?
  {
    var s := "\"";
    assert s[1..] == [];
    assert BodyLength([]) == Some(0) && Decode([]) == Some([]);
    ValueUnfold(s);
    SkipNone();
    assert ParseString(s) == Ok([], []);
  }
}
