/** Removing space and comments in place. */
module JsonMinify {
  import opened Common
  import opened JsonStrings
  import opened JsonText
  import opened CStrings
  import opened JsonPrinter
  import opened JsonRoundTrip

  // ---------- what is left of a text ----------

  predicate IsSpace(c: char) {
    c == ' ' || c == '\t' || c == '\r' || c == '\n'
  }

  function LineLength(t: string): (n: nat)
    ensures n <= |t|
  {
    if t == [] || t[0] == '\n' then 0 else 1 + LineLength(t[1..])
  }

  /** How far a comment reaches, its closing mark included. */
  function CommentLength(t: string): (n: Option<nat>)
    ensures n.Some? ==> 2 <= n.value <= |t|
  {
    if |t| < 2 then None
    else if t[0] == '*' && t[1] == '/' then Some(2)
    else
      var n := CommentLength(t[1..]);
      if n.None? then None else Some(n.value + 1)
  }

  /** How far a literal reaches after its opening quote, its closing quote included. */
  function LiteralLength(t: string): (n: Option<nat>)
    ensures n.Some? ==> 1 <= n.value <= |t|
  {
    if t == [] then None
    else if t[0] == '\"' then Some(1)
    else
      var step := if t[0] == '\\' then 2 else 1;
      if |t| < step then None else
        var n := LiteralLength(t[step..]);
        if n.None? then None else Some(n.value + step)
  }

  /** The text without its space and comments; None if a comment or a literal does not end, where the
      original runs past the terminator. */
  function Minify(t: string): Option<string>
    decreases |t|
  {
    if t == [] then Some([])
    else if IsSpace(t[0]) then Minify(t[1..])
    else if "//" <= t then
      Minify(t[LineLength(t)..])
    else if "/*" <= t then
      if CommentLength(t).None? then None else Minify(t[CommentLength(t).value..])
    else if t[0] == '\"' then
      var n := LiteralLength(t[1..]);
      if n.None? then None else Prefixed(t[..n.value + 1], Minify(t[n.value + 1..]))
    else Prefixed([t[0]], Minify(t[1..]))
  }

  // ---------- minifying what the printer wrote ----------

  /** A character that is copied on its own. */
  predicate IsCopied(c: char) {
    !IsSpace(c) && c != '/' && c != '\"'
  }

  lemma {:induction false} MinifyCopied(p: string, rest: string)
    requires forall i :: 0 <= i < |p| ==> IsCopied(p[i])
    ensures Minify(p + rest) == Prefixed(p, Minify(rest))
  {
    if p == [] {
      assert p + rest == rest;
      PrefixNothing(Minify(rest));
    } else {
      assert (p + rest)[1..] == p[1..] + rest;
      MinifyCopied(p[1..], rest);
      PrefixTwice([p[0]], p[1..], Minify(rest));
      assert [p[0]] + p[1..] == p;
    }
  }

  lemma {:induction false} MinifySpaces(p: string, rest: string)
    requires forall i :: 0 <= i < |p| ==> IsSpace(p[i])
    ensures Minify(p + rest) == Minify(rest)
  {
    if p == [] {
      assert p + rest == rest;
    } else {
      assert (p + rest)[1..] == p[1..] + rest;
      MinifySpaces(p[1..], rest);
    }
  }

  lemma {:induction false} DigitsCopied(n: nat)
    ensures forall i :: 0 <= i < |Digits(n)| ==> IsCopied(Digits(n)[i])
  {
    if n >= 10 {
      DigitsCopied(n / 10);
    }
  }

  /** A literal that the parser would take to a closing quote ends there here too. */
  lemma {:induction false} LiteralIsBody(t: string)
    requires BodyLength(t).Some? && BodyLength(t).value < |t| && t[BodyLength(t).value] == '\"'
    ensures LiteralLength(t) == Some(BodyLength(t).value + 1)
    decreases |t|
  {
    if t[0] == '\\' {
      LiteralIsBody(t[2..]);
    } else if t[0] != '\"' {
      LiteralIsBody(t[1..]);
    }
  }

  lemma MinifyQuote(s: string, rest: string)
    requires NulFree(s)
    ensures Minify(Quote(s) + rest) == Prefixed(Quote(s), Minify(rest))
  {
    hide EscapeAll, BodyLength, LiteralLength;
    var t := Quote(s) + rest;
    var body := EscapeAll(s);
    assert t[1..] == body + ("\"" + rest);
    EscapedLength(s, "\"" + rest);
    LiteralIsBody(t[1..]);
    assert t[..|body| + 2] == Quote(s) && t[|body| + 2..] == rest;
  }

  lemma MinifyOne(c: char, rest: string)
    requires IsCopied(c)
    ensures Minify([c] + rest) == Prefixed([c], Minify(rest))
  {
    MinifyCopied([c], rest);
  }

  lemma MinifyIf(fmt: bool, s: string, rest: string)
    requires forall i :: 0 <= i < |s| ==> IsSpace(s[i])
    ensures Minify(If(fmt, s) + rest) == Minify(rest)
  {
    MinifySpaces(If(fmt, s), rest);
  }

  /** Minifying a printed tree, formatted or not, gives its unformatted text, whatever follows. */
  lemma {:induction false} MinifyValue(j: Json, depth: nat, fmt: bool, rest: string)
    requires Printable(j)
    ensures Minify(Text(j, depth, fmt) + rest) == Prefixed(Text(j, 0, false), Minify(rest))
    decreases j, 0
  {
    hide Minify, Quote, Digits, ItemsText, MembersText;
    match j
    case Null => MinifyCopied("null", rest);
    case False => MinifyCopied("false", rest);
    case True => MinifyCopied("true", rest);
    case Number(value) =>
      DigitsCopied(if value.Floor < 0 then -value.Floor else value.Floor);
      MinifyCopied(Text(j, depth, fmt), rest);
    case String(text) => MinifyQuote(text, rest);
    case Array(items) => MinifyArray(items, depth, fmt, rest);
    case Object(members) => MinifyObject(members, depth, fmt, rest);
  }

  lemma {:induction false} MinifyArray(items: seq<Json>, depth: nat, fmt: bool, rest: string)
    requires forall i :: 0 <= i < |items| ==> Printable(items[i])
    ensures Minify(Text(Array(items), depth, fmt) + rest) == Prefixed(Text(Array(items), 0, false), Minify(rest))
    decreases items, 2
  {
    hide Minify, ItemsText, Printable;
    var (all, bare, after) := (ItemsText(items, depth + 1, fmt), ItemsText(items, 1, false), Minify(rest));
    assert Text(Array(items), depth, fmt) + rest == "[" + (all + ("]" + rest));
    MinifyOne('[', all + ("]" + rest));
    MinifyItems(items, depth + 1, fmt, "]" + rest);
    MinifyOne(']', rest);
    PrefixTwice(bare, "]", after);
    PrefixTwice("[", bare + "]", after);
    assert "[" + (bare + "]") == "[" + bare + "]";
  }

  lemma {:induction false} MinifyItems(items: seq<Json>, depth: nat, fmt: bool, rest: string)
    requires forall i :: 0 <= i < |items| ==> Printable(items[i])
    ensures Minify(ItemsText(items, depth, fmt) + rest) == Prefixed(ItemsText(items, 1, false), Minify(rest))
    decreases items, 1
  {
    hide Minify, Text, Printable, IsSpace, IsCopied, Prefixed, Comma;
    if items == [] {
      NoItems(items, depth, fmt);
      NoItems(items, 1, false);
      assert [] + rest == rest;
      PrefixNothing(Minify(rest));
    } else {
      assert items[0..] == items;
      ItemsTextStep(items, 0, depth, fmt);
      ItemsTextStep(items, 0, 1, false);
      var last := |items| == 1;
      var (one, more) := (Text(items[0], depth, fmt), ItemsText(items[1..], depth, fmt));
      var (bare, tail) := (Text(items[0], 1, false), ItemsText(items[1..], 1, false));
      FlatText(items[0], 1);
      MinifyValue(items[0], depth, fmt, Comma(last, fmt) + (more + rest));
      MinifyComma(last, fmt, more + rest);
      MinifyItems(items[1..], depth, fmt, rest);
      MinifyRow(one, Comma(last, fmt), more, rest, bare, Comma(last, false), tail);
    }
  }

  /** An element, what follows it and the rest of its list, minified one after the other. */
  lemma MinifyRow(one: string, sep: string, more: string, rest: string, bare: string, comma: string, tail: string)
    requires Minify(one + (sep + (more + rest))) == Prefixed(bare, Minify(sep + (more + rest)))
    requires Minify(sep + (more + rest)) == Prefixed(comma, Minify(more + rest))
    requires Minify(more + rest) == Prefixed(tail, Minify(rest))
    ensures Minify(one + sep + more + rest) == Prefixed(bare + comma + tail, Minify(rest))
  {
    hide Minify, Prefixed;
    assert one + sep + more + rest == one + (sep + (more + rest));
    PrefixTwice(comma, tail, Minify(rest));
    PrefixTwice(bare, comma + tail, Minify(rest));
    assert bare + (comma + tail) == bare + comma + tail;
  }

  lemma MinifyComma(last: bool, fmt: bool, rest: string)
    ensures Minify(Comma(last, fmt) + rest) == Prefixed(Comma(last, false), Minify(rest))
  {
    hide Minify;
    if last {
      assert Comma(last, fmt) + rest == rest;
      PrefixNothing(Minify(rest));
    } else {
      assert Comma(last, fmt) + rest == "," + (If(fmt, " ") + rest) && Comma(last, false) == ",";
      MinifyOne(',', If(fmt, " ") + rest);
      MinifyIf(fmt, " ", rest);
    }
  }

  lemma MinifyLineEnd(last: bool, fmt: bool, rest: string)
    ensures Minify(LineEnd(last, fmt) + rest) == Prefixed(LineEnd(last, false), Minify(rest))
  {
    hide Minify;
    MinifyIf(fmt, "\n", rest);
    if last {
      assert LineEnd(last, fmt) + rest == If(fmt, "\n") + rest && LineEnd(last, false) == [];
      PrefixNothing(Minify(rest));
    } else {
      assert LineEnd(last, fmt) + rest == "," + (If(fmt, "\n") + rest) && LineEnd(last, false) == ",";
      MinifyOne(',', If(fmt, "\n") + rest);
    }
  }

  /** Without formatting the depth does not show. */
  lemma {:induction false} FlatText(j: Json, depth: nat)
    ensures Text(j, depth, false) == Text(j, 0, false)
    decreases j, 0
  {
    match j
    case Array(items) => FlatItems(items, depth + 1);
    case Object(members) => FlatMembers(members, depth + 1);
    case _ =>
  }

  lemma {:induction false} FlatItems(items: seq<Json>, depth: nat)
    ensures ItemsText(items, depth, false) == ItemsText(items, 1, false)
    decreases items, 1
  {
    if items != [] {
      FlatText(items[0], depth);
      FlatText(items[0], 1);
      FlatItems(items[1..], depth);
    }
  }

  lemma {:induction false} FlatMembers(members: seq<Member>, depth: nat)
    ensures MembersText(members, depth, false) == MembersText(members, 1, false)
    decreases members, 1
  {
    if members != [] {
      FlatText(members[0].value, depth);
      FlatText(members[0].value, 1);
      FlatMembers(members[1..], depth);
    }
  }

  lemma {:induction false} MinifyObject(members: seq<Member>, depth: nat, fmt: bool, rest: string)
    requires forall i :: 0 <= i < |members| ==> NulFree(members[i].key) && Printable(members[i].value)
    ensures Minify(Text(Object(members), depth, fmt) + rest) == Prefixed(Text(Object(members), 0, false), Minify(rest))
    decreases members, 2
  {
    hide Minify, MembersText, Printable, Tabs;
    var (all, bare, after) := (MembersText(members, depth + 1, fmt), MembersText(members, 1, false), Minify(rest));
    var end := If(fmt, Tabs(depth)) + ("}" + rest);
    assert Text(Object(members), depth, fmt) + rest == "{" + (If(fmt, "\n") + (all + end));
    MinifyOne('{', If(fmt, "\n") + (all + end));
    MinifyIf(fmt, "\n", all + end);
    MinifyMembers(members, depth + 1, fmt, end);
    TabsAreSpace(depth);
    MinifyIf(fmt, Tabs(depth), "}" + rest);
    MinifyOne('}', rest);
    PrefixTwice(bare, "}", after);
    PrefixTwice("{", bare + "}", after);
    assert Text(Object(members), 0, false) == "{" + (bare + "}");
  }

  lemma TabsAreSpace(n: nat)
    ensures forall i :: 0 <= i < |Tabs(n)| ==> IsSpace(Tabs(n)[i])
  {
  }

  lemma {:induction false} MinifyMembers(members: seq<Member>, depth: nat, fmt: bool, rest: string)
    requires forall i :: 0 <= i < |members| ==> NulFree(members[i].key) && Printable(members[i].value)
    ensures Minify(MembersText(members, depth, fmt) + rest) == Prefixed(MembersText(members, 1, false), Minify(rest))
    decreases members, 1
  {
    hide Minify, MemberText, Printable, IsSpace, IsCopied, LineEnd, Prefixed, NulFree;
    if members == [] {
      NoMembers(members, depth, fmt);
      NoMembers(members, 1, false);
      assert [] + rest == rest;
      PrefixNothing(Minify(rest));
    } else {
      assert members[0..] == members;
      MembersTextStep(members, 0, depth, fmt);
      MembersTextStep(members, 0, 1, false);
      var last := |members| == 1;
      var (one, more) := (MemberText(members[0], depth, fmt), MembersText(members[1..], depth, fmt));
      var (bare, tail) := (MemberText(members[0], 1, false), MembersText(members[1..], 1, false));
      MinifyMember(members[0], depth, fmt, LineEnd(last, fmt) + (more + rest));
      MinifyLineEnd(last, fmt, more + rest);
      MinifyMembers(members[1..], depth, fmt, rest);
      MinifyRow(one, LineEnd(last, fmt), more, rest, bare, LineEnd(last, false), tail);
    }
  }

  lemma {:induction false} MinifyMember(m: Member, depth: nat, fmt: bool, rest: string)
    requires NulFree(m.key) && Printable(m.value)
    ensures Minify(MemberText(m, depth, fmt) + rest) == Prefixed(MemberText(m, 1, false), Minify(rest))
    decreases m, 1
  {
    hide Minify, Quote, Text, Tabs, Printable, NulFree;
    var (key, one, bare) := (Quote(m.key), Text(m.value, depth, fmt), Text(m.value, 1, false));
    var value := If(fmt, "\t") + (one + rest);
    assert MemberText(m, depth, fmt) + rest == If(fmt, Tabs(depth)) + (key + (":" + value));
    TabsAreSpace(depth);
    MinifyIf(fmt, Tabs(depth), key + (":" + value));
    MinifyQuote(m.key, ":" + value);
    MinifyOne(':', value);
    MinifyIf(fmt, "\t", one + rest);
    MinifyValue(m.value, depth, fmt, rest);
    FlatText(m.value, 1);
    PrefixTwice(":", bare, Minify(rest));
    PrefixTwice(key, ":" + bare, Minify(rest));
    assert MemberText(m, 1, false) == key + (":" + bare);
  }

  /** Minifying the formatted text of a tree gives its unformatted text, and minifying that changes nothing. */
  lemma MinifyAfterPrint(j: Json, fmt: bool)
    requires Printable(j)
    ensures Minify(Text(j, 0, fmt)) == Some(Text(j, 0, false))
  {
    MinifyValue(j, 0, fmt, []);
    assert Text(j, 0, fmt) + [] == Text(j, 0, fmt) && Text(j, 0, false) + [] == Text(j, 0, false);
  }

  // ---------- in place ----------

  /** From `pos` on, the buffer still holds the rest of `text` and the terminator. */
  predicate Unread(json: array<char>, pos: nat, text: string)
    reads json
  {
    && pos <= |text| < json.Length && json[|text|] == '\0' && NulFree(text)
    && forall k :: pos <= k < |text| ==> json[k] == text[k]
  }

  method SkipLine(json: array<char>, pos: nat, ghost text: string) returns (end: nat)
    requires Unread(json, pos, text)
    ensures pos <= end <= |text| && end == pos + LineLength(text[pos..])
  {
    end := pos;
    while json[end] != '\0' && json[end] != '\n'
      invariant pos <= end <= |text| && end + LineLength(text[end..]) == pos + LineLength(text[pos..])
      decreases |text| - end
    {
      assert text[end..][1..] == text[end + 1..];
      end := end + 1;
    }
  }

  method SkipComment(json: array<char>, pos: nat, ghost text: string) returns (end: nat)
    requires Unread(json, pos, text) && CommentLength(text[pos..]).Some?
    ensures end == pos + CommentLength(text[pos..]).value
  {
    end := pos;
    while json[end] != '\0' && !(json[end] == '*' && json[end + 1] == '/')
      invariant pos <= end <= |text| && CommentLength(text[end..]).Some?
      invariant end + CommentLength(text[end..]).value == pos + CommentLength(text[pos..]).value
      decreases |text| - end
    {
      assert text[end..][1..] == text[end + 1..];
      end := end + 1;
    }
    end := end + 2;
  }

  /** Copy one character down. */
  method CopyDown(json: array<char>, into: nat, pos: nat, ghost text: string)
    requires into <= pos < |text| && Unread(json, pos, text)
    modifies json
    ensures json[..into + 1] == old(json[..into]) + [text[pos]] && Unread(json, pos + 1, text)
  {
    json[into] := json[pos];
  }

  /** What a reader at `pos` sees of it. */
  lemma UnreadBounds(json: array<char>, pos: nat, text: string)
    requires Unread(json, pos, text)
    ensures pos <= |text| < json.Length && (json[pos] == '\0' <==> pos == |text|)
    ensures pos < |text| ==> json[pos] == text[pos]
    ensures pos + 1 < |text| ==> json[pos + 1] == text[pos + 1]
    ensures pos + 1 == |text| ==> json[pos + 1] == '\0'
  {
  }

  lemma Slices(text: string, i: nat, j: nat, k: nat)
    requires i <= j <= k <= |text|
    ensures text[i..j] + text[j..k] == text[i..k] && text[j..][k - j..] == text[k..]
  {
  }

  lemma Append(a: string, b: string, c: string)
    ensures a + b + c == a + (b + c)
  {
  }

  lemma LiteralStep(t: string)
    requires t != [] && t[0] != '\"' && LiteralLength(t).Some?
    ensures var step := if t[0] == '\\' then 2 else 1;
      step <= |t| && LiteralLength(t[step..]).Some? && LiteralLength(t) == Some(step + LiteralLength(t[step..]).value)
  {
  }

  /** Copy one character of a literal down, or a backslash and the character it hides. */
  method CopyUnit(json: array<char>, into0: nat, pos0: nat, ghost text: string) returns (into: nat, pos: nat)
    requires into0 <= pos0 < |text| && Unread(json, pos0, text) && (text[pos0] == '\\' ==> pos0 + 1 < |text|)
    modifies json
    ensures pos == pos0 + (if text[pos0] == '\\' then 2 else 1) && into - into0 == pos - pos0
    ensures Unread(json, pos, text) && json[..into] == old(json[..into0]) + text[pos0..pos]
  {
    into, pos := into0, pos0;
    if json[pos] == '\\' {
      CopyDown(json, into, pos, text);
      into, pos := into + 1, pos + 1;
    }
    CopyDown(json, into, pos, text);
    into, pos := into + 1, pos + 1;
  }

  /** Copy a literal down; its quotes are copied too. */
  method CopyLiteral(json: array<char>, into0: nat, pos0: nat, ghost text: string) returns (into: nat, pos: nat)
    requires into0 <= pos0 < |text| && Unread(json, pos0, text) && LiteralLength(text[pos0 + 1..]).Some?
    modifies json
    ensures pos == pos0 + 1 + LiteralLength(text[pos0 + 1..]).value && into - into0 == pos - pos0 && Unread(json, pos, text)
    ensures json[..into] == old(json[..into0]) + text[pos0..pos]
  {
    hide Unread, LiteralLength;
    UnreadBounds(json, pos0, text);
    ghost var before := json[..into0];
    CopyDown(json, into0, pos0, text);
    into, pos := into0 + 1, pos0 + 1;
    ghost var copied := text[pos0..pos];
    ghost var end := pos + LiteralLength(text[pos..]).value;
    while json[pos] != '\0' && json[pos] != '\"'
      invariant pos0 < pos <= |text| < json.Length && into - into0 == pos - pos0 && Unread(json, pos, text)
      invariant copied == text[pos0..pos] && json[..into] == before + copied
      invariant LiteralLength(text[pos..]).Some? && pos + LiteralLength(text[pos..]).value == end
      decreases |text| - pos
    {
      UnreadBounds(json, pos, text);
      ghost var start := pos;
      LiteralStep(text[pos..]);
      into, pos := CopyUnit(json, into, pos, text);
      Slices(text, pos0, start, pos);
      Append(before, copied, text[start..pos]);
      copied := text[pos0..pos];
    }
    UnreadBounds(json, pos, text);
    LiteralEnds(text[pos..]);
    Slices(text, pos0, pos, pos + 1);
    Append(before, copied, [text[pos]]);
    CopyDown(json, into, pos, text);
    into, pos := into + 1, pos + 1;
  }

  lemma LiteralEnds(t: string)
    requires LiteralLength(t).Some? && (t == [] || t[0] == '\"')
    ensures t != [] && LiteralLength(t) == Some(1)
  {
  }

  lemma SpaceAt(text: string, pos: nat)
    requires pos < |text| && IsSpace(text[pos])
    ensures Minify(text[pos..]) == Minify(text[pos + 1..])
  {
  }

  lemma LineAt(text: string, pos: nat)
    requires pos + 1 < |text| && text[pos] == '/' && text[pos + 1] == '/'
    ensures LineLength(text[pos..]) >= 1 && Minify(text[pos..]) == Minify(text[pos + LineLength(text[pos..])..])
  {
    Slices(text, pos, pos, pos + LineLength(text[pos..]));
  }

  lemma CommentAt(text: string, pos: nat)
    requires pos + 1 < |text| && text[pos] == '/' && text[pos + 1] == '*' && Minify(text[pos..]).Some?
    ensures var n := CommentLength(text[pos..]);
      n.Some? && Minify(text[pos..]) == Minify(text[pos + n.value..])
  {
    hide CommentLength;
    Slices(text, pos, pos, pos + CommentLength(text[pos..]).value);
  }

  lemma LiteralAt(text: string, pos: nat)
    requires pos < |text| && text[pos] == '\"' && Minify(text[pos..]).Some?
    ensures var n := LiteralLength(text[pos + 1..]);
      n.Some? && var end := pos + 1 + n.value; Minify(text[pos..]) == Prefixed(text[pos..end], Minify(text[end..]))
  {
    hide LiteralLength;
    Slices(text, pos, pos, pos + 1);
    var n := LiteralLength(text[pos + 1..]).value + 1;
    assert text[pos..][..n] == text[pos..pos + n] && text[pos..][n..] == text[pos + n..];
  }

  lemma OtherAt(text: string, pos: nat)
    requires pos < |text| && !IsSpace(text[pos]) && text[pos] != '\"'
    requires text[pos] == '/' ==> pos + 1 == |text| || (text[pos + 1] != '/' && text[pos + 1] != '*')
    ensures Minify(text[pos..]) == Prefixed([text[pos]], Minify(text[pos + 1..]))
  {
    Slices(text, pos, pos, pos + 1);
  }

  lemma UnreadLater(json: array<char>, pos: nat, later: nat, text: string)
    requires Unread(json, pos, text) && pos <= later <= |text|
    ensures Unread(json, later, text)
  {
  }

  /** One round: skip a space or a comment, or copy a literal or a single character down. */
  method MinifyUnit(json: array<char>, into0: nat, pos0: nat, ghost text: string)
    returns (into: nat, pos: nat, ghost kept: string)
    requires into0 <= pos0 < |text| && Unread(json, pos0, text) && Minify(text[pos0..]).Some?
    modifies json
    ensures into <= pos && pos0 < pos <= |text| < json.Length && Unread(json, pos, text)
    ensures json[..into] == old(json[..into0]) + kept && Minify(text[pos0..]) == Prefixed(kept, Minify(text[pos..]))
  {
    hide LineLength, CommentLength, LiteralLength, Minify, Unread, IsSpace, Prefixed;
    UnreadBounds(json, pos0, text);
    into, pos, kept := into0, pos0, [];
    if IsSpace(json[pos]) {
      SpaceAt(text, pos);
      pos := pos + 1;
    } else if json[pos] == '/' && json[pos + 1] == '/' {
      LineAt(text, pos);
      pos := SkipLine(json, pos, text);
    } else if json[pos] == '/' && json[pos + 1] == '*' {
      CommentAt(text, pos);
      pos := SkipComment(json, pos, text);
    } else if json[pos] == '\"' {
      LiteralAt(text, pos);
      into, pos := CopyLiteral(json, into, pos, text);
      kept := text[pos0..pos];
      return;
    } else {
      OtherAt(text, pos);
      CopyDown(json, into, pos, text);
      into, pos, kept := into + 1, pos + 1, [text[pos]];
      return;
    }
    UnreadLater(json, pos0, pos, text);
    PrefixNothing(Minify(text[pos..]));
    assert json[..into] + [] == json[..into];
  }

  /** The text is rewritten from its start while it is being read; the write position never passes the read
      position. */
  method MinifyInPlace(json: array<char>, ghost text: string)
    requires Holds(json, 0, text) && NulFree(text) && Minify(text).Some?
    modifies json
    ensures Holds(json, 0, Minify(text).value)
  {
    hide Minify, Unread;
    var into: nat, pos: nat := 0, 0;
    AllUnread(json, text);
    UnreadBounds(json, 0, text);
    assert text[0..] == text;
    PrefixNothing(Minify(text));
    ghost var done: string := [];
    while json[pos] != '\0'
      invariant into <= pos <= |text| < json.Length && Unread(json, pos, text)
      invariant json[..into] == done && Minify(text) == Prefixed(done, Minify(text[pos..]))
      decreases |text| - pos
    {
      UnreadBounds(json, pos, text);
      ghost var kept: string;
      into, pos, kept := MinifyUnit(json, into, pos, text);
      PrefixTwice(done, kept, Minify(text[pos..]));
      done := done + kept;
    }
    UnreadBounds(json, pos, text);
    MinifyNothing();
    assert text[pos..] == [] && done + [] == done;
    json[into] := '\0';
    assert json[0..into] == done;
  }

  lemma MinifyNothing()
    ensures Minify([]) == Some([])
  {
  }

  lemma AllUnread(json: array<char>, text: string)
    requires Holds(json, 0, text) && NulFree(text)
    ensures Unread(json, 0, text)
  {
    assert json[0..|text|] == text;
  }
}
