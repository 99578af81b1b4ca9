/** C strings inside char buffers, and the few library calls the printers make. */
module CStrings {
  import opened JsonText

  /** The C string at `at` is `s`. */
  predicate Holds(a: array<char>, at: nat, s: string)
    reads a
  {
    at + |s| < a.Length && a[at..at + |s|] == s && a[at + |s|] == '\0'
  }

  /** memcpy to `at`; nothing before it changes. */
  method Write(out: array<char>, at: nat, s: string) returns (next: nat)
    requires at + |s| <= out.Length
    modifies out
    ensures next == at + |s| && out[..next] == old(out[..at]) + s
  {
    next := at;
    for i := 0 to |s|
      invariant next == at + i && out[..next] == old(out[..at]) + s[..i]
    {
      out[next] := s[i];
      next := next + 1;
    }
    assert s[..|s|] == s;
  }

  /** strcpy to `at`. */
  method CopyString(out: array<char>, at: nat, s: string)
    requires at + |s| < out.Length
    modifies out
    ensures out[..at] == old(out[..at]) && Holds(out, at, s)
  {
    var next := Write(out, at, s);
    ghost var whole := out[..next];
    out[next] := '\0';
    assert out[..next] == whole;
    assert out[..at] == whole[..at] && out[at..next] == whole[at..];
  }

  /** strlen, for a buffer known to hold `s`. */
  method StringLength(a: array<char>, at: nat, ghost s: string) returns (n: nat)
    requires Holds(a, at, s) && NulFree(s)
    ensures n == |s|
  {
    n := 0;
    while a[at + n] != '\0'
      invariant n <= |s|
      decreases |s| - n
    {
      assert n < |s|;
      n := n + 1;
    }
  }

  // ---------- what both printers share ----------

  /** What follows the backslash of an escaped character. */
  function AfterBackslash(c: char): string {
    if c == '\\' then "\\"
    else if c == '\"' then "\""
    else if c == BACKSPACE then "b"
    else if c == FORM_FEED then "f"
    else if c == '\n' then "n"
    else if c == '\r' then "r"
    else if c == '\t' then "t"
    else "u00" + [DigitChar(c as int % 256 / 16), DigitChar(c as int % 16)]
  }

  predicate IsSpecial(c: char) {
    c as int < 32 || c == '\"' || c == '\\'
  }

  /** A character that one letter escapes. */
  predicate HasLetter(c: char) {
    c in ['\"', '\\', BACKSPACE, FORM_FEED, '\n', '\r', '\t']
  }

  lemma EscapeParts(c: char)
    ensures Escape(c) == if IsSpecial(c) then "\\" + AfterBackslash(c) else [c]
  {
    hide HasLetter, DigitChar;
  }

  lemma EscapeSize(c: char)
    ensures |Escape(c)| == if HasLetter(c) then 2 else if c as int < 32 then 6 else 1
    ensures !IsSpecial(c) ==> Escape(c) == [c]
  {
    hide DigitChar;
  }

  /** The two measuring passes of the string printer: does anything need escaping, and how long is the body? */
  method MeasureString(s: string) returns (flag: bool, len: nat)
    ensures len == |EscapeAll(s)| && (!flag ==> EscapeAll(s) == s)
  {
    hide Escape;
    flag := false;
    for i := 0 to |s|
      invariant !flag ==> EscapeAll(s[i..]) == s[i..] ==> EscapeAll(s) == s
    {
      EscapeSize(s[i]);
      flag := flag || IsSpecial(s[i]);
      assert s[i..][1..] == s[i + 1..] && s[i..] == [s[i]] + s[i + 1..];
    }
    assert s[|s|..] == [];
    len := |s|;
    if flag {
      len := 0;
      for i := 0 to |s|
        invariant len + |EscapeAll(s[i..])| == |EscapeAll(s)|
      {
        EscapeSize(s[i]);
        len := len + 1;
        if HasLetter(s[i]) {
          len := len + 1;
        } else if s[i] as int < 32 {
          len := len + 5;
        }
        assert s[i..][1..] == s[i + 1..];
      }
    }
  }

  /** Move one piece from what is left to what is done. */
  lemma Absorb(before: string, done: string, piece: string, rest: string, left: string)
    requires left == piece + rest
    ensures done + left == done + piece + rest && before + done + piece == before + (done + piece)
  {
  }

  lemma Append3(a: string, b: string, c: string, d: string)
    ensures a + b + c + d == a + (b + (c + d)) && a + b + (c + d) == a + (b + c + d) && a + b + c + d == a + (b + c + d)
  {
  }

  /** The copying loop of the string printer. */
  method WriteEscaped(out: array<char>, at: nat, s: string) returns (ptr: nat)
    requires at + |EscapeAll(s)| <= out.Length
    modifies out
    ensures ptr == at + |EscapeAll(s)| && out[..ptr] == old(out[..at]) + EscapeAll(s)
  {
    hide Escape, AfterBackslash;
    ptr := at;
    ghost var before, done: string := out[..at], [];
    for i := 0 to |s|
      invariant done + EscapeAll(s[i..]) == EscapeAll(s)
      invariant ptr == at + |done| && out[..ptr] == before + done
    {
      EscapeParts(s[i]);
      assert s[i..][1..] == s[i + 1..];
      assert done + EscapeAll(s[i..]) == done + Escape(s[i]) + EscapeAll(s[i + 1..]);
      if IsSpecial(s[i]) {
        ptr := Write(out, ptr, "\\");
        ptr := Write(out, ptr, AfterBackslash(s[i]));
        Append3(before, done, "\\", AfterBackslash(s[i]));
      } else {
        ptr := Write(out, ptr, [s[i]]);
      }
      done := done + Escape(s[i]);
    }
    assert done == EscapeAll(s);
  }

  /** Write the literal for `s`, with its terminator, into room measured before. */
  method FillString(out: array<char>, at: nat, s: string, flag: bool)
    requires at + |EscapeAll(s)| + 3 <= out.Length && (!flag ==> EscapeAll(s) == s)
    modifies out
    ensures out[..at] == old(out[..at]) && Holds(out, at, Quote(s))
  {
    hide EscapeAll;
    var ptr := Write(out, at, "\"");
    if !flag {
      ptr := Write(out, ptr, s);
    } else {
      ptr := WriteEscaped(out, ptr, s);
    }
    ptr := Write(out, ptr, "\"");
    ghost var whole := out[..ptr];
    out[ptr] := '\0';
    assert whole == old(out[..at]) + Quote(s) && out[..ptr] == whole;
    assert out[..at] == whole[..at] && out[at..ptr] == whole[at..];
  }

  method WriteTabs(out: array<char>, at: nat, n: nat) returns (next: nat)
    requires at + n <= out.Length
    modifies out
    ensures next == at + n && out[..next] == old(out[..at]) + Tabs(n)
  {
    next := at;
    for i := 0 to n
      invariant next == at + i && out[..next] == old(out[..at]) + Tabs(i)
    {
      out[next] := '\t';
      next := next + 1;
    }
  }

  // ---------- facts about the text ----------

  /** What follows an element of an array. */
  function Comma(last: bool, fmt: bool): string {
    if last then [] else "," + If(fmt, " ")
  }

  lemma ItemsTextStep(items: seq<Json>, i: nat, depth: nat, fmt: bool)
    requires i < |items|
    ensures ItemsText(items[i..], depth, fmt)
      == Text(items[i], depth, fmt) + Comma(i == |items| - 1, fmt) + ItemsText(items[i + 1..], depth, fmt)
  {
    hide Text;
    assert items[i..][1..] == items[i + 1..];
    var t := Text(items[i], depth, fmt);
    if i == |items| - 1 {
      assert t + [] + [] == t;
    } else {
      assert t + "," + If(fmt, " ") == t + ("," + If(fmt, " "));
    }
  }

  /** What follows a member of an object. */
  function LineEnd(last: bool, fmt: bool): string {
    (if last then [] else ",") + If(fmt, "\n")
  }

  lemma MembersTextStep(members: seq<Member>, i: nat, depth: nat, fmt: bool)
    requires i < |members|
    ensures MembersText(members[i..], depth, fmt)
      == MemberText(members[i], depth, fmt) + LineEnd(i == |members| - 1, fmt) + MembersText(members[i + 1..], depth, fmt)
  {
    hide MemberText;
    assert members[i..][1..] == members[i + 1..];
    var t := MemberText(members[i], depth, fmt);
    if i == |members| - 1 {
      assert t + ([] + If(fmt, "\n")) + [] == t + If(fmt, "\n");
    } else {
      assert t + "," + If(fmt, "\n") == t + ("," + If(fmt, "\n"));
    }
  }

  lemma NulFreeJoin(a: string, b: string)
    requires NulFree(a) && NulFree(b)
    ensures NulFree(a + b)
  {
  }
}
