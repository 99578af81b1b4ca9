/** The join-and-allocate printer: every value is rendered into a string of its own, whose length is worked
    out before it is written. */
module JsonPrinter {
  import opened JsonText
  import opened CStrings

  // ---------- the text is a C string ----------

  lemma {:induction false} DigitsNulFree(n: nat)
    ensures NulFree(Digits(n))
  {
    if n >= 10 {
      DigitsNulFree(n / 10);
    }
  }

  lemma {:induction false} EscapeNulFree(s: string)
    ensures NulFree(s) ==> NulFree(EscapeAll(s))
  {
    if s != [] && NulFree(s) {
      EscapeNulFree(s[1..]);
      EscapeParts(s[0]);
      NulFreeJoin(Escape(s[0]), EscapeAll(s[1..]));
    }
  }

  lemma QuoteNulFree(s: string)
    requires NulFree(s)
    ensures NulFree(Quote(s))
  {
    EscapeNulFree(s);
  }

  /** No printed text has a NUL inside, so strlen measures all of it. */
  lemma {:induction false} TextNulFree(j: Json, depth: nat, fmt: bool)
    requires Printable(j)
    ensures NulFree(Text(j, depth, fmt))
    decreases j, 0
  {
    hide Digits, Quote, ItemsText, MembersText;
    match j
    case Number(value) =>
      if value.Floor < 0 { DigitsNulFree(-value.Floor); } else { DigitsNulFree(value.Floor); }
    case String(text) => QuoteNulFree(text);
    case Array(items) => ItemsNulFree(items, depth + 1, fmt);
    case Object(members) => MembersNulFree(members, depth + 1, fmt);
    case _ =>
  }

  lemma {:induction false} ItemsNulFree(items: seq<Json>, depth: nat, fmt: bool)
    requires forall i :: 0 <= i < |items| ==> Printable(items[i])
    ensures NulFree(ItemsText(items, depth, fmt))
    decreases items, 1
  {
    hide Text, Printable;
    if items != [] {
      TextNulFree(items[0], depth, fmt);
      if |items| > 1 {
        ItemsNulFree(items[1..], depth, fmt);
      }
    }
  }

  lemma {:induction false} MembersNulFree(members: seq<Member>, depth: nat, fmt: bool)
    requires forall i :: 0 <= i < |members| ==> NulFree(members[i].key) && Printable(members[i].value)
    ensures NulFree(MembersText(members, depth, fmt))
    decreases members, 1
  {
    hide Text, Printable, Quote;
    if members != [] {
      QuoteNulFree(members[0].key);
      TextNulFree(members[0].value, depth, fmt);
      if |members| > 1 {
        MembersNulFree(members[1..], depth, fmt);
      }
    }
  }

  // ---------- room for numbers ----------

  lemma {:induction false} DigitsFit(n: nat, k: nat)
    requires 1 <= k && n < TenTo(k)
    ensures 1 <= |Digits(n)| <= k
  {
    if n >= 10 {
      DigitsFit(n / 10, k - 1);
    }
  }

  /** An int takes at most eleven characters. */
  lemma DecimalFits(n: int)
    requires INT_MIN <= n <= INT_MAX
    ensures 1 <= |Decimal(n)| <= 11
  {
    assert TenTo(3) == 1000;
    assert TenTo(6) == 1000 * TenTo(3);
    assert TenTo(10) == 1000000 * 10000;
    DigitsFit(if n < 0 then -n else n, 10);
  }

  // ---------- the printer ----------

  method PrintNumber(value: int) returns (out: array<char>)
    requires INT_MIN <= value <= INT_MAX
    ensures fresh(out) && Holds(out, 0, Decimal(value))
  {
    if value == 0 {
      out := new char[2];
      CopyString(out, 0, "0");
    } else {
      out := new char[21];
      DecimalFits(value);
      CopyString(out, 0, Decimal(value));
    }
  }

  method PrintString(s: string) returns (out: array<char>)
    ensures fresh(out) && Holds(out, 0, Quote(s))
  {
    var flag, len := MeasureString(s);
    out := new char[len + 3];
    FillString(out, 0, s, flag);
  }

  method Duplicate(s: string) returns (out: array<char>)
    ensures fresh(out) && Holds(out, 0, s)
  {
    out := new char[|s| + 1];
    CopyString(out, 0, s);
  }

  method PrintValue(j: Json, depth: nat, fmt: bool) returns (out: array<char>)
    requires Printable(j)
    ensures fresh(out) && Holds(out, 0, Text(j, depth, fmt))
    decreases j, 0
  {
    hide ItemsText, MembersText, Decimal, Quote, Holds;
    match j
    case Null => out := Duplicate("null");
    case False => out := Duplicate("false");
    case True => out := Duplicate("true");
    case Number(value) => out := PrintNumber(value.Floor);
    case String(text) => out := PrintString(text);
    case Array(items) => out := PrintArray(items, depth, fmt);
    case Object(members) => out := PrintObject(members, depth, fmt);
  }

  /** What the first pass over an array adds up. */
  function ItemsRoom(items: seq<Json>, depth: nat, fmt: bool): nat {
    if items == [] then 0 else |Text(items[0], depth, fmt)| + 2 + (if fmt then 1 else 0) + ItemsRoom(items[1..], depth, fmt)
  }

  lemma {:induction false} ItemsFit(items: seq<Json>, depth: nat, fmt: bool)
    ensures |ItemsText(items, depth, fmt)| <= ItemsRoom(items, depth, fmt)
  {
    hide Text;
    if items != [] {
      ItemsTextStep(items, 0, depth, fmt);
      assert items[0..] == items;
      ItemsFit(items[1..], depth, fmt);
    }
  }

  lemma NoItems(items: seq<Json>, depth: nat, fmt: bool)
    requires items == []
    ensures ItemsText(items, depth, fmt) == [] && ItemsRoom(items, depth, fmt) == 0
  {
  }

  method PrintArray(items: seq<Json>, depth: nat, fmt: bool) returns (out: array<char>)
    requires forall i :: 0 <= i < |items| ==> Printable(items[i])
    ensures fresh(out) && Holds(out, 0, Text(Array(items), depth, fmt))
    decreases items, 1
  {
    if items == [] {
      out := new char[3];
      CopyString(out, 0, "[]");
      return;
    }
    var entries, len := PrintItems(items, depth + 1, fmt);
    out := new char[len];
    ItemsFit(items, depth + 1, fmt);
    ComposeArray(out, items, entries, depth, fmt);
  }

  predicate Rendered(entries: seq<array<char>>, items: seq<Json>, depth: nat, fmt: bool)
    reads entries
  {
    |entries| <= |items| && forall k :: 0 <= k < |entries| ==> Holds(entries[k], 0, Text(items[k], depth, fmt))
  }

  /** Render the elements and add up the room that the whole array needs. */
  method PrintItems(items: seq<Json>, depth: nat, fmt: bool) returns (entries: seq<array<char>>, len: nat)
    requires forall i :: 0 <= i < |items| ==> Printable(items[i])
    ensures |entries| == |items| && fresh(entries) && Rendered(entries, items, depth, fmt)
    ensures len == 5 + ItemsRoom(items, depth, fmt)
    decreases items, 0
  {
    hide Text, Printable, Holds;
    entries, len := [], 5;
    assert items[0..] == items;
    for i := 0 to |items|
      invariant |entries| == i && fresh(entries) && Rendered(entries, items, depth, fmt)
      invariant len + ItemsRoom(items[i..], depth, fmt) == 5 + ItemsRoom(items, depth, fmt)
    {
      var ret := PrintValue(items[i], depth, fmt);
      entries := entries + [ret];
      TextNulFree(items[i], depth, fmt);
      var n := StringLength(ret, 0, Text(items[i], depth, fmt));
      len := len + n + 2 + if fmt then 1 else 0;
      assert items[i..][1..] == items[i + 1..];
    }
    NoItems(items[|items|..], depth, fmt);
  }

  /** Append one rendered element and what follows it. */
  method ComposeItem(out: array<char>, at: nat, entry: array<char>, ghost text: string, last: bool, fmt: bool)
    returns (ptr: nat)
    requires out != entry && Holds(entry, 0, text) && NulFree(text) && at + |text| + |Comma(last, fmt)| <= out.Length
    modifies out
    ensures ptr == at + |text| + |Comma(last, fmt)| && out[..ptr] == old(out[..at]) + (text + Comma(last, fmt))
  {
    var n := StringLength(entry, 0, text);
    ptr := Write(out, at, entry[..n]);
    assert entry[..n] == text;
    if !last {
      ptr := Write(out, ptr, ",");
      if fmt {
        ptr := Write(out, ptr, " ");
      }
    }
  }

  /** Join the rendered elements. */
  method ComposeArray(out: array<char>, items: seq<Json>, entries: seq<array<char>>, depth: nat, fmt: bool)
    requires out !in entries && |entries| == |items| && Rendered(entries, items, depth + 1, fmt)
    requires forall i :: 0 <= i < |items| ==> Printable(items[i])
    requires out.Length >= 3 + |ItemsText(items, depth + 1, fmt)|
    modifies out
    ensures Holds(out, 0, "[" + ItemsText(items, depth + 1, fmt) + "]")
  {
    hide Text, Printable, ItemsText, Comma;
    var ptr := Write(out, 0, "[");
    ghost var done, whole: string := [], ItemsText(items, depth + 1, fmt);
    assert items[0..] == items;
    for i := 0 to |items|
      invariant Rendered(entries, items, depth + 1, fmt)
      invariant done + ItemsText(items[i..], depth + 1, fmt) == whole
      invariant ptr == 1 + |done| && out[..ptr] == "[" + done
    {
      ghost var text := Text(items[i], depth + 1, fmt);
      ghost var piece := text + Comma(i == |items| - 1, fmt);
      ItemsTextStep(items, i, depth + 1, fmt);
      Absorb("[", done, piece, ItemsText(items[i + 1..], depth + 1, fmt), ItemsText(items[i..], depth + 1, fmt));
      TextNulFree(items[i], depth + 1, fmt);
      ptr := ComposeItem(out, ptr, entries[i], text, i == |items| - 1, fmt);
      done := done + piece;
    }
    NoItems(items[|items|..], depth + 1, fmt);
    assert done == whole;
    Finish(out, ptr, "[" + whole, "]");
  }

  /** Write the closing bracket and the terminator. */
  method Finish(out: array<char>, at: nat, ghost before: string, close: string)
    requires at + |close| < out.Length && out[..at] == before
    modifies out
    ensures Holds(out, 0, before + close)
  {
    var ptr := Write(out, at, close);
    ghost var text := out[..ptr];
    out[ptr] := '\0';
    assert out[0..ptr] == text;
  }

  // ---------- objects ----------

  function MemberRoom(m: Member, depth: nat, fmt: bool): nat {
    |Text(m.value, depth, fmt)| + |Quote(m.key)| + 2 + if fmt then 2 + depth else 0
  }

  /** What the first pass over an object adds up. */
  function MembersRoom(members: seq<Member>, depth: nat, fmt: bool): nat {
    if members == [] then 0
    else MemberRoom(members[0], depth, fmt) + MembersRoom(members[1..], depth, fmt)
  }

  lemma {:induction false} MembersFit(members: seq<Member>, depth: nat, fmt: bool)
    ensures |MembersText(members, depth, fmt)| <= MembersRoom(members, depth, fmt)
  {
    hide Text, Quote;
    if members != [] {
      MembersTextStep(members, 0, depth, fmt);
      assert members[0..] == members;
      MembersFit(members[1..], depth, fmt);
    }
  }

  lemma NoMembers(members: seq<Member>, depth: nat, fmt: bool)
    requires members == []
    ensures MembersText(members, depth, fmt) == [] && MembersRoom(members, depth, fmt) == 0
  {
  }

  predicate RenderedMembers(names: seq<array<char>>, entries: seq<array<char>>, members: seq<Member>, depth: nat, fmt: bool)
    reads names, entries
  {
    && |names| == |entries| <= |members|
    && (forall k :: 0 <= k < |names| ==> Holds(names[k], 0, Quote(members[k].key)))
    && (forall k :: 0 <= k < |entries| ==> Holds(entries[k], 0, Text(members[k].value, depth, fmt)))
  }

  lemma RenderedMore(names: seq<array<char>>, entries: seq<array<char>>, members: seq<Member>, depth: nat, fmt: bool,
                     name: array<char>, entry: array<char>)
    requires RenderedMembers(names, entries, members, depth, fmt) && |names| < |members|
    requires Holds(name, 0, Quote(members[|names|].key)) && Holds(entry, 0, Text(members[|names|].value, depth, fmt))
    ensures RenderedMembers(names + [name], entries + [entry], members, depth, fmt)
  {
    hide Text, Quote, Holds;
  }

  lemma RenderedAt(names: seq<array<char>>, entries: seq<array<char>>, members: seq<Member>, depth: nat, fmt: bool, i: nat)
    requires RenderedMembers(names, entries, members, depth, fmt) && i < |names|
    ensures Holds(names[i], 0, Quote(members[i].key)) && Holds(entries[i], 0, Text(members[i].value, depth, fmt))
  {
  }

  method PrintMember(m: Member, depth: nat, fmt: bool) returns (str: array<char>, ret: array<char>, len: nat)
    requires NulFree(m.key) && Printable(m.value)
    ensures fresh(str) && fresh(ret) && len == MemberRoom(m, depth, fmt)
    ensures Holds(str, 0, Quote(m.key)) && Holds(ret, 0, Text(m.value, depth, fmt))
    decreases m, 0
  {
    hide Text, Printable, Quote;
    str := PrintString(m.key);
    ret := PrintValue(m.value, depth, fmt);
    QuoteNulFree(m.key);
    TextNulFree(m.value, depth, fmt);
    var n := StringLength(ret, 0, Text(m.value, depth, fmt));
    len := StringLength(str, 0, Quote(m.key));
    len := n + len + 2 + if fmt then 2 + depth else 0;
  }

  /** Render the keys and the values and add up the room that the whole object needs. */
  method PrintMembers(members: seq<Member>, depth: nat, fmt: bool)
    returns (names: seq<array<char>>, entries: seq<array<char>>, len: nat)
    requires forall i :: 0 <= i < |members| ==> NulFree(members[i].key) && Printable(members[i].value)
    ensures |names| == |entries| == |members| && fresh(names) && fresh(entries)
    ensures RenderedMembers(names, entries, members, depth, fmt)
    ensures len == 7 + (if fmt then depth else 0) + MembersRoom(members, depth, fmt)
    decreases members, 0
  {
    hide Text, Printable, Holds, Quote, RenderedMembers, MemberRoom, NulFree;
    names, entries, len := [], [], 7;
    if fmt {
      len := len + depth;
    }
    assert members[0..] == members;
    NothingRendered(members, depth, fmt);
    for i := 0 to |members|
      invariant |names| == |entries| == i && fresh(names) && fresh(entries)
      invariant RenderedMembers(names, entries, members, depth, fmt)
      invariant len + MembersRoom(members[i..], depth, fmt)
        == 7 + (if fmt then depth else 0) + MembersRoom(members, depth, fmt)
    {
      var str, ret, more := PrintMember(members[i], depth, fmt);
      RenderedMore(names, entries, members, depth, fmt, str, ret);
      names, entries, len := names + [str], entries + [ret], len + more;
      assert members[i..][1..] == members[i + 1..];
    }
    NoMembers(members[|members|..], depth, fmt);
  }

  lemma NothingRendered(members: seq<Member>, depth: nat, fmt: bool)
    ensures RenderedMembers([], [], members, depth, fmt)
  {
  }

  /** A member up to its value. */
  function KeyText(m: Member, depth: nat, fmt: bool): string {
    If(fmt, Tabs(depth)) + Quote(m.key) + ":" + If(fmt, "\t")
  }

  method ComposeKey(out: array<char>, at: nat, name: array<char>, ghost m: Member, depth: nat, fmt: bool)
    returns (ptr: nat)
    requires out != name && Holds(name, 0, Quote(m.key)) && NulFree(Quote(m.key))
    requires at + |KeyText(m, depth, fmt)| <= out.Length
    modifies out
    ensures ptr == at + |KeyText(m, depth, fmt)| && out[..ptr] == old(out[..at]) + KeyText(m, depth, fmt)
  {
    hide Quote;
    ptr := at;
    if fmt {
      ptr := WriteTabs(out, ptr, depth);
    }
    var n := StringLength(name, 0, Quote(m.key));
    ptr := Write(out, ptr, name[..n]);
    assert name[..n] == Quote(m.key);
    ptr := Write(out, ptr, ":");
    if fmt {
      ptr := Write(out, ptr, "\t");
    }
  }

  method ComposeValue(out: array<char>, at: nat, entry: array<char>, ghost text: string, last: bool, fmt: bool)
    returns (ptr: nat)
    requires out != entry && Holds(entry, 0, text) && NulFree(text)
    requires at + |text| + |LineEnd(last, fmt)| <= out.Length
    modifies out
    ensures ptr == at + |text| + |LineEnd(last, fmt)| && out[..ptr] == old(out[..at]) + text + LineEnd(last, fmt)
  {
    var n := StringLength(entry, 0, text);
    ptr := Write(out, at, entry[..n]);
    assert entry[..n] == text;
    if !last {
      ptr := Write(out, ptr, ",");
    }
    if fmt {
      ptr := Write(out, ptr, "\n");
    }
  }

  /** Append one rendered member and what follows it. */
  method ComposeMember(out: array<char>, at: nat, name: array<char>, entry: array<char>, ghost m: Member, depth: nat,
                       last: bool, fmt: bool)
    returns (ptr: nat)
    requires out != name && Holds(name, 0, Quote(m.key)) && out != entry && Holds(entry, 0, Text(m.value, depth, fmt))
    requires NulFree(m.key) && Printable(m.value)
    requires at + |MemberText(m, depth, fmt)| + |LineEnd(last, fmt)| <= out.Length
    modifies out
    ensures ptr == at + |MemberText(m, depth, fmt)| + |LineEnd(last, fmt)|
    ensures out[..ptr] == old(out[..at]) + (MemberText(m, depth, fmt) + LineEnd(last, fmt))
  {
    hide Text, Quote, LineEnd, Tabs, Printable, NulFree, Holds;
    QuoteNulFree(m.key);
    TextNulFree(m.value, depth, fmt);
    assert MemberText(m, depth, fmt) == KeyText(m, depth, fmt) + Text(m.value, depth, fmt);
    ptr := ComposeKey(out, at, name, m, depth, fmt);
    ptr := ComposeValue(out, ptr, entry, Text(m.value, depth, fmt), last, fmt);
    Append3(old(out[..at]), KeyText(m, depth, fmt), Text(m.value, depth, fmt), LineEnd(last, fmt));
  }

  /** Join the rendered members. */
  method ComposeObject(out: array<char>, members: seq<Member>, names: seq<array<char>>, entries: seq<array<char>>,
                       depth: nat, fmt: bool)
    requires out !in names && out !in entries && |names| == |entries| == |members|
    requires RenderedMembers(names, entries, members, depth + 1, fmt)
    requires forall i :: 0 <= i < |members| ==> NulFree(members[i].key) && Printable(members[i].value)
    requires out.Length >= 3 + |MembersText(members, depth + 1, fmt)| + (if fmt then 1 + depth else 0)
    modifies out
    ensures Holds(out, 0, Text(Object(members), depth, fmt))
  {
    hide MemberText, Printable, MembersText, LineEnd, Quote, RenderedMembers, Holds;
    var ptr := Write(out, 0, "{");
    if fmt {
      ptr := Write(out, ptr, "\n");
    }
    ghost var head := "{" + If(fmt, "\n");
    ghost var done, whole: string := [], MembersText(members, depth + 1, fmt);
    assert members[0..] == members;
    for i := 0 to |members|
      invariant RenderedMembers(names, entries, members, depth + 1, fmt)
      invariant done + MembersText(members[i..], depth + 1, fmt) == whole
      invariant ptr == |head| + |done| && out[..ptr] == head + done
    {
      ghost var piece := MemberText(members[i], depth + 1, fmt) + LineEnd(i == |members| - 1, fmt);
      MembersTextStep(members, i, depth + 1, fmt);
      Absorb(head, done, piece, MembersText(members[i + 1..], depth + 1, fmt), MembersText(members[i..], depth + 1, fmt));
      RenderedAt(names, entries, members, depth + 1, fmt, i);
      ptr := ComposeMember(out, ptr, names[i], entries[i], members[i], depth + 1, i == |members| - 1, fmt);
      done := done + piece;
    }
    NoMembers(members[|members|..], depth + 1, fmt);
    assert done == whole;
    if fmt {
      ptr := WriteTabs(out, ptr, depth);
    }
    Finish(out, ptr, head + whole + If(fmt, Tabs(depth)), "}");
  }

  lemma NoMembersText(depth: nat, fmt: bool)
    ensures Text(Object([]), depth, fmt) == "{" + If(fmt, "\n") + If(fmt, Tabs(depth)) + "}"
  {
    assert MembersText([], depth + 1, fmt) == [];
  }

  method PrintObject(members: seq<Member>, depth: nat, fmt: bool) returns (out: array<char>)
    requires forall i :: 0 <= i < |members| ==> NulFree(members[i].key) && Printable(members[i].value)
    ensures fresh(out) && Holds(out, 0, Text(Object(members), depth, fmt))
    decreases members, 1
  {
    hide Text, MembersText, Printable;
    if members == [] {
      out := new char[if fmt then depth + 4 else 3];
      FillEmptyObject(out, 0, depth, fmt);
      return;
    }
    var names, entries, len := PrintMembers(members, depth + 1, fmt);
    out := new char[len];
    MembersFit(members, depth + 1, fmt);
    ComposeObject(out, members, names, entries, depth, fmt);
  }

  /** An object without members, written into room for it. */
  method FillEmptyObject(out: array<char>, at: nat, depth: nat, fmt: bool)
    requires at + (if fmt then depth + 4 else 3) <= out.Length
    modifies out
    ensures out[..at] == old(out[..at]) && Holds(out, at, Text(Object([]), depth, fmt))
  {
    hide Text;
    var ptr := Write(out, at, "{");
    if fmt {
      ptr := Write(out, ptr, "\n");
      ptr := WriteTabs(out, ptr, depth);
    }
    ptr := Write(out, ptr, "}");
    NoMembersText(depth, fmt);
    ghost var whole := out[..ptr];
    assert whole == old(out[..at]) + Text(Object([]), depth, fmt);
    out[ptr] := '\0';
    assert out[..ptr] == whole;
    assert out[..at] == whole[..at] && out[at..ptr] == whole[at..];
  }
}
