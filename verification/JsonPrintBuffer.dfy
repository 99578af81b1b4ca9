/** The printer that appends to one buffer, which grows when it is full. */
module JsonPrintBuffer {
  import opened Common
  import opened JsonText
  import opened CStrings
  import opened JsonPrinter
  import opened PowersOfTwo

  // ---------- the room a value asks for ----------

  function Max(a: nat, b: nat): nat {
    if a < b then b else a
  }

  /** The most room, counted from where it starts, that printing a value asks the buffer for. */
  function Need(j: Json, depth: nat, fmt: bool): nat
    decreases j, 0
  {
    match j
    case Null => 5
    case False => 6
    case True => 5
    case Number(value) => if value.Floor == 0 then 2 else 21
    case String(text) => |Quote(text)| + 1
    case Array(items) => if items == [] then 3 else 1 + ItemsNeed(items, depth + 1, fmt)
    case Object(members) =>
      if members == [] then if fmt then depth + 4 else 3
      else (if fmt then 2 else 1) + MembersNeed(members, depth + 1, fmt)
  }

  /** The same for what is left of an array, up to its closing bracket. */
  function ItemsNeed(items: seq<Json>, depth: nat, fmt: bool): (n: nat)
    ensures n >= 2
    decreases items, 1
  {
    if items == [] then 2
    else Max(Need(items[0], depth, fmt),
             |Text(items[0], depth, fmt)| + |Comma(|items| == 1, fmt)| + ItemsNeed(items[1..], depth, fmt))
  }

  /** The same for what is left of an object whose members are indented by `depth`. */
  function MembersNeed(members: seq<Member>, depth: nat, fmt: bool): (n: nat)
    requires depth > 0
    ensures n >= 2
    decreases members, 1
  {
    if members == [] then if fmt then depth + 1 else 2
    else Max(|KeyText(members[0], depth, fmt)| + Need(members[0].value, depth, fmt),
             |MemberText(members[0], depth, fmt)| + |LineEnd(|members| == 1, fmt)| + MembersNeed(members[1..], depth, fmt))
  }

  /** A value never asks for less than its text and terminator, nor for more than nineteen characters beyond. */
  lemma {:induction false} NeedBounds(j: Json, depth: nat, fmt: bool)
    requires Printable(j)
    ensures |Text(j, depth, fmt)| + 1 <= Need(j, depth, fmt) <= |Text(j, depth, fmt)| + 20
    decreases j, 0
  {
    hide ItemsNeed, MembersNeed, ItemsText, MembersText, Quote, Digits;
    match j
    case Number(value) => DecimalFits(value.Floor); assert Decimal(0) == "0" by { DecimalOfZero(); }
    case Array(items) =>
      NoItems([], depth + 1, fmt);
      ItemsNeedBounds(items, depth + 1, fmt);
    case Object(members) =>
      NoMembers([], depth + 1, fmt);
      MembersNeedBounds(members, depth + 1, fmt);
    case _ =>
  }

  lemma DecimalOfZero()
    ensures Decimal(0) == "0"
  {
  }

  lemma {:induction false} ItemsNeedBounds(items: seq<Json>, depth: nat, fmt: bool)
    requires forall i :: 0 <= i < |items| ==> Printable(items[i])
    ensures |ItemsText(items, depth, fmt)| + 2 <= ItemsNeed(items, depth, fmt) <= |ItemsText(items, depth, fmt)| + 20
    decreases items, 1
  {
    hide Printable, Need, Text, Comma;
    if items != [] {
      NeedBounds(items[0], depth, fmt);
      ItemsNeedBounds(items[1..], depth, fmt);
      assert items[0..] == items;
      ItemsTextStep(items, 0, depth, fmt);
    }
  }

  lemma {:induction false} MembersNeedBounds(members: seq<Member>, depth: nat, fmt: bool)
    requires forall i :: 0 <= i < |members| ==> NulFree(members[i].key) && Printable(members[i].value)
    requires depth > 0
    ensures var n := |MembersText(members, depth, fmt)| + if fmt then depth + 1 else 2;
      n <= MembersNeed(members, depth, fmt) <= n + 18
    decreases members, 1
  {
    hide Printable, Need, Text, LineEnd, Quote, NulFree;
    if members != [] {
      NeedBounds(members[0].value, depth, fmt);
      MembersNeedBounds(members[1..], depth, fmt);
      assert members[0..] == members;
      MembersTextStep(members, 0, depth, fmt);
    }
  }

  /** A number of one digit comes closest to that. */
  lemma NeedBoundIsTight(depth: nat, fmt: bool)
    ensures Need(Number(1.0), depth, fmt) == |Text(Number(1.0), depth, fmt)| + 20
  {
    assert 1.0.Floor == 1 && Digits(1) == "1";
  }

  /** No number but zero: for others, room is asked for that they may not need. */
  predicate OnlyZeros(j: Json) {
    match j
    case Number(value) => value.Floor == 0
    case Array(items) => forall i :: 0 <= i < |items| ==> OnlyZeros(items[i])
    case Object(members) => forall i :: 0 <= i < |members| ==> OnlyZeros(members[i].value)
    case _ => true
  }

  /** Then exactly the text and its terminator are asked for. */
  lemma {:induction false} NeedIsExact(j: Json, depth: nat, fmt: bool)
    requires OnlyZeros(j)
    ensures Need(j, depth, fmt) == |Text(j, depth, fmt)| + 1
    decreases j, 0
  {
    hide ItemsNeed, MembersNeed, ItemsText, MembersText, Quote;
    match j
    case Number(value) => DecimalOfZero();
    case Array(items) =>
      NoItems([], depth + 1, fmt);
      ItemsNeedIsExact(items, depth + 1, fmt);
    case Object(members) =>
      NoMembers([], depth + 1, fmt);
      MembersNeedIsExact(members, depth + 1, fmt);
    case _ =>
  }

  lemma {:induction false} ItemsNeedIsExact(items: seq<Json>, depth: nat, fmt: bool)
    requires forall i :: 0 <= i < |items| ==> OnlyZeros(items[i])
    ensures ItemsNeed(items, depth, fmt) == |ItemsText(items, depth, fmt)| + 2
    decreases items, 1
  {
    hide OnlyZeros, Need, Text, Comma;
    if items != [] {
      NeedIsExact(items[0], depth, fmt);
      ItemsNeedIsExact(items[1..], depth, fmt);
      assert items[0..] == items;
      ItemsTextStep(items, 0, depth, fmt);
    }
  }

  lemma {:induction false} MembersNeedIsExact(members: seq<Member>, depth: nat, fmt: bool)
    requires depth > 0 && forall i :: 0 <= i < |members| ==> OnlyZeros(members[i].value)
    ensures MembersNeed(members, depth, fmt) == |MembersText(members, depth, fmt)| + if fmt then depth + 1 else 2
    decreases members, 1
  {
    hide OnlyZeros, Need, Text, LineEnd, Quote;
    if members != [] {
      NeedIsExact(members[0].value, depth, fmt);
      MembersNeedIsExact(members[1..], depth, fmt);
      assert members[0..] == members;
      MembersTextStep(members, 0, depth, fmt);
    }
  }

  lemma ItemsNeedStep(items: seq<Json>, i: nat, depth: nat, fmt: bool)
    requires i < |items|
    ensures ItemsNeed(items[i..], depth, fmt) == Max(Need(items[i], depth, fmt),
      |Text(items[i], depth, fmt)| + |Comma(i == |items| - 1, fmt)| + ItemsNeed(items[i + 1..], depth, fmt))
  {
    hide Need, Text, Comma;
    assert items[i..][1..] == items[i + 1..];
  }

  lemma MembersNeedStep(members: seq<Member>, i: nat, depth: nat, fmt: bool)
    requires i < |members| && depth > 0
    ensures MembersNeed(members[i..], depth, fmt) == Max(
      |KeyText(members[i], depth, fmt)| + Need(members[i].value, depth, fmt),
      |MemberText(members[i], depth, fmt)| + |LineEnd(i == |members| - 1, fmt)| + MembersNeed(members[i + 1..], depth, fmt))
  {
    hide Need, KeyText, MemberText, LineEnd;
    assert members[i..][1..] == members[i + 1..];
  }

  lemma EmptyText(depth: nat, fmt: bool)
    ensures Text(Array([]), depth, fmt) == "[]" && Need(Array([]), depth, fmt) == 3
  {
    assert ItemsText([], depth + 1, fmt) == [];
  }

  lemma ArrayParts(items: seq<Json>, depth: nat, fmt: bool)
    requires items != []
    ensures Text(Array(items), depth, fmt) == "[" + ItemsText(items, depth + 1, fmt) + "]"
    ensures Need(Array(items), depth, fmt) == 1 + ItemsNeed(items, depth + 1, fmt)
  {
  }

  lemma ObjectParts(members: seq<Member>, depth: nat, fmt: bool)
    ensures Text(Object(members), depth, fmt)
      == "{" + If(fmt, "\n") + MembersText(members, depth + 1, fmt) + (If(fmt, Tabs(depth)) + "}")
    ensures members != [] ==>
      Need(Object(members), depth, fmt) == (if fmt then 2 else 1) + MembersNeed(members, depth + 1, fmt)
    ensures members == [] ==> Need(Object(members), depth, fmt) == if fmt then depth + 4 else 3
  {
    hide MembersText, Tabs;
    var open := "{" + If(fmt, "\n") + MembersText(members, depth + 1, fmt);
    assert open + If(fmt, Tabs(depth)) + "}" == open + (If(fmt, Tabs(depth)) + "}");
  }

  lemma TabsLength(n: nat)
    ensures |Tabs(n)| == n
  {
  }

  lemma NothingLeft(depth: nat, fmt: bool)
    ensures ItemsNeed([], depth, fmt) == 2 && MembersNeed([], depth + 1, fmt) == if fmt then depth + 2 else 2
  {
  }

  // ---------- the printer ----------

  lemma Extend(a: array<char>, at: nat, before: string, text: string)
    requires at <= a.Length && a[..at] == before && Holds(a, at, text)
    ensures a[..at + |text|] == before + text
  {
    assert a[..at + |text|] == a[..at] + a[at..at + |text|];
  }

  /** The offset of the pointer that print_value returns. An object that is broken over lines reuses the
      variable that remembers its start, so it reports its depth instead. */
  function Reported(j: Json, depth: nat, fmt: bool, start: nat): nat {
    if j.Object? && j.members != [] && fmt then depth else start
  }

  /** An object that follows a number in an array starts at 4, and is reported at its depth, 1. */
  lemma ReportedElsewhere(j: Json)
    requires j.Object? && j.members != []
    ensures var pair := Array([Number(1.0), j]);
      && Text(pair, 0, true) == "[1, " + Text(j, 1, true) + "]" && |"[1, "| == 4
      && Reported(j, 1, true, 4) == 1
  {
    hide MembersText;
    var (one, items) := (Number(1.0), [Number(1.0), j]);
    assert 1.0.Floor == 1 && Digits(1) == "1";
    assert Text(one, 1, true) == "1";
    assert items[1..] == [j];
    assert ItemsText(items, 1, true) == "1" + "," + " " + Text(j, 1, true);
  }

  class PrintBuffer {
    var buffer: array?<char>
    var offset: nat
    const noalloc: bool

    predicate Valid()
      reads this
    {
      buffer != null ==> offset <= buffer.Length
    }

    /** How long the buffer is, or can get. */
    function Capacity(): nat
      reads this`buffer
    {
      if buffer == null then 0 else if noalloc then buffer.Length else Max(buffer.Length, LIMIT)
    }

    /** The text so far. */
    function Written(): string
      requires Valid()
      reads this, buffer
    {
      if buffer == null then [] else buffer[..offset]
    }

    constructor (buffer: array?<char>, noalloc: bool)
      ensures this.buffer == buffer && offset == 0 && this.noalloc == noalloc && Valid()
    {
      this.buffer, this.offset, this.noalloc := buffer, 0, noalloc;
    }

    /** Make room for `needed` more characters. */
    method Ensure(needed: nat) returns (ok: bool)
      requires Valid() && needed >= 1
      modifies this`buffer
      ensures Valid() && (ok <==> old(buffer) != null && offset + needed <= old(Capacity()))
      ensures buffer == old(buffer) || (!noalloc && (buffer == null || fresh(buffer)))
      ensures ok ==> buffer != null && offset + needed <= buffer.Length && Capacity() == old(Capacity())
      ensures ok ==> old(buffer) != null && old(buffer.Length) <= buffer.Length
      ensures ok ==> buffer[..old(buffer.Length)] == old(buffer[..])
      ensures ok ==> Written() == old(Written())
    {
      hide Pow2gt, LIMIT;
      if buffer == null {
        return false;
      }
      var total := offset + needed;
      if total <= buffer.Length {
        return true;
      }
      if noalloc {
        return false;
      }
      if total > LIMIT {
        buffer := null;
        return false;
      }
      var newsize := Pow2gt(total);
      GrowthIsLimited(total);
      var newbuffer := new char[newsize];
      ghost var all := buffer[..];
      var end := Write(newbuffer, 0, buffer[..]);
      assert newbuffer[..end] == all && newbuffer[..offset] == all[..offset];
      buffer := newbuffer;
      ok := true;
    }

    /** `text` has been appended to `before`, with a terminator; the offset may still be anywhere in it. */
    predicate Wrote(before: string, text: string)
      reads this, buffer
    {
      && buffer != null && |before| <= offset <= |before| + |text| < buffer.Length
      && buffer[..|before| + |text|] == before + text && buffer[|before| + |text|] == '\0'
    }

    lemma WrittenLength()
      requires Valid()
      ensures buffer != null ==> |Written()| == offset
    {
    }

    /** Move the offset to the end of the string that starts at it. */
    method Update(ghost before: string, ghost text: string)
      requires Wrote(before, text) && NulFree(text)
      modifies this`offset
      ensures Valid() && buffer != null && Written() == before + text && offset == |before| + |text|
    {
      ghost var left := text[offset - |before|..];
      assert buffer[offset..offset + |left|] == (before + text)[offset..];
      var n := StringLength(buffer, offset, left);
      offset := offset + n;
    }

    /** Ask for `needed` characters and write a short text and its terminator there. */
    method PrintText(text: string, needed: nat) returns (out: Option<nat>)
      requires Valid() && |text| < needed
      modifies this`buffer, buffer
      ensures Valid() && (buffer == old(buffer) || (!noalloc && (buffer == null || fresh(buffer))))
      ensures out.Some? <==> old(buffer) != null && offset + needed <= old(Capacity())
      ensures out.Some? ==> out.value == offset && Wrote(old(Written()), text) && Capacity() == old(Capacity())
    {
      var ok := Ensure(needed);
      if !ok {
        return None;
      }
      ghost var before := Written();
      CopyString(buffer, offset, text);
      Extend(buffer, offset, before, text);
      out := Some(offset);
    }

    /** Ask for room and write a piece of an array or an object there, perhaps with a terminator. */
    method Emit(s: string, terminated: bool) returns (ok: bool)
      requires Valid() && (s != [] || terminated)
      modifies this, buffer
      ensures Valid() && (buffer == old(buffer) || (!noalloc && (buffer == null || fresh(buffer))))
      ensures ok <==> old(buffer) != null && old(offset) + |s| + (if terminated then 1 else 0) <= old(Capacity())
      ensures ok ==> buffer != null && Written() == old(Written()) + s && Capacity() == old(Capacity())
      ensures ok ==> offset == old(offset) + |s|
      ensures ok && terminated ==> offset < buffer.Length && buffer[offset] == '\0'
    {
      ok := Ensure(|s| + if terminated then 1 else 0);
      if !ok {
        return;
      }
      var ptr := Write(buffer, offset, s);
      offset := offset + |s|;
      ghost var whole := buffer[..offset];
      if terminated {
        buffer[ptr] := '\0';
      }
      assert buffer[..offset] == whole;
    }

    method PrintString(s: string) returns (out: Option<nat>)
      requires Valid()
      modifies this`buffer, buffer
      ensures Valid() && (buffer == old(buffer) || (!noalloc && (buffer == null || fresh(buffer))))
      ensures out.Some? <==> old(buffer) != null && offset + |Quote(s)| + 1 <= old(Capacity())
      ensures out.Some? ==> out.value == offset && Wrote(old(Written()), Quote(s)) && Capacity() == old(Capacity())
    {
      hide EscapeAll;
      var flag, len := MeasureString(s);
      var ok := Ensure(len + 3);
      if !ok {
        return None;
      }
      ghost var before := Written();
      FillString(buffer, offset, s, flag);
      Extend(buffer, offset, before, Quote(s));
      out := Some(offset);
    }

    method PrintValue(j: Json, depth: nat, fmt: bool) returns (out: Option<nat>)
      requires Valid() && Printable(j)
      modifies this, buffer
      ensures Valid() && (buffer == old(buffer) || (!noalloc && (buffer == null || fresh(buffer))))
      ensures out.Some? <==> old(buffer) != null && old(offset) + Need(j, depth, fmt) <= old(Capacity())
      ensures out.Some? ==> out.value == Reported(j, depth, fmt, old(offset))
      ensures out.Some? ==> Wrote(old(Written()), Text(j, depth, fmt)) && Capacity() == old(Capacity())
      decreases j, 0
    {
      hide ItemsText, MembersText, Digits, Quote, ItemsNeed, MembersNeed, Wrote, Capacity, Written;
      match j
      case Null => out := PrintText("null", 5);
      case False => out := PrintText("false", 6);
      case True => out := PrintText("true", 5);
      case Number(value) =>
        if value.Floor == 0 {
          DecimalOfZero();
          out := PrintText("0", 2);
        } else {
          DecimalFits(value.Floor);
          out := PrintText(Decimal(value.Floor), 21);
        }
      case String(text) => out := PrintString(text);
      case Array(items) => out := PrintArray(items, depth, fmt);
      case Object(members) => out := PrintObject(members, depth, fmt);
    }

    /** One element and what follows it. */
    method PrintItem(j: Json, depth: nat, last: bool, fmt: bool) returns (ok: bool)
      requires Valid() && Printable(j)
      modifies this, buffer
      ensures Valid() && (buffer == old(buffer) || (!noalloc && (buffer == null || fresh(buffer))))
      ensures var need := Max(Need(j, depth, fmt), |Text(j, depth, fmt)| + |Comma(last, fmt)| + 1);
        ok <==> old(buffer) != null && old(offset) + need <= old(Capacity())
      ensures ok ==> buffer != null && Written() == old(Written()) + (Text(j, depth, fmt) + Comma(last, fmt))
      ensures ok ==> Capacity() == old(Capacity()) && offset == old(offset) + |Text(j, depth, fmt) + Comma(last, fmt)|
      decreases j, 1
    {
      hide Text, Need, Wrote, Capacity, Printable;
      NeedBounds(j, depth, fmt);
      TextNulFree(j, depth, fmt);
      ghost var before := Written();
      var out := PrintValue(j, depth, fmt);
      if out.None? {
        return false;
      }
      Update(before, Text(j, depth, fmt));
      if last {
        return true;
      }
      ok := Emit("," + if fmt then " " else "", true);
      assert "," + (if fmt then " " else "") == "," + If(fmt, " ");
    }

    method PrintArray(items: seq<Json>, depth: nat, fmt: bool) returns (out: Option<nat>)
      requires Valid() && forall i :: 0 <= i < |items| ==> Printable(items[i])
      modifies this, buffer
      ensures Valid() && (buffer == old(buffer) || (!noalloc && (buffer == null || fresh(buffer))))
      ensures out.Some? <==> old(buffer) != null && old(offset) + Need(Array(items), depth, fmt) <= old(Capacity())
      ensures out.Some? ==> out.value == old(offset)
      ensures out.Some? ==> Wrote(old(Written()), Text(Array(items), depth, fmt)) && Capacity() == old(Capacity())
      decreases items, 2
    {
      hide ItemsText, Text, Need, ItemsNeed, Capacity, Printable, Wrote;
      if items == [] {
        EmptyText(depth, fmt);
        out := PrintText("[]", 3);
        return;
      }
      var start := offset;
      ArrayParts(items, depth, fmt);
      ghost var before := Written();
      var ok := Emit("[", false);
      if !ok {
        return None;
      }
      ok := PrintItems(items, depth + 1, fmt);
      if !ok {
        return None;
      }
      out := PrintText("]", 2);
      if out.Some? {
        Close(before, "[", ItemsText(items, depth + 1, fmt), "]");
        out := Some(start);
      }
    }

    /** The elements, up to where the closing bracket goes. */
    method PrintItems(items: seq<Json>, depth: nat, fmt: bool) returns (ok: bool)
      requires Valid() && buffer != null && forall i :: 0 <= i < |items| ==> Printable(items[i])
      modifies this, buffer
      ensures Valid() && (buffer == old(buffer) || (!noalloc && (buffer == null || fresh(buffer))))
      ensures ok && offset + 2 <= Capacity() <==> old(offset) + ItemsNeed(items, depth, fmt) <= old(Capacity())
      ensures ok ==> buffer != null && Capacity() == old(Capacity())
      ensures ok ==> Written() == old(Written()) + ItemsText(items, depth, fmt)
      decreases items, 1
    {
      hide ItemsText, Text, Need, ItemsNeed, Capacity, Printable, Comma, Written, Wrote;
      ghost var before, done, whole: string := Written(), [], ItemsText(items, depth, fmt);
      assert items[0..] == items && before + [] == before;
      for i := 0 to |items|
        invariant Valid() && buffer != null && (buffer == old(buffer) || (!noalloc && fresh(buffer)))
        invariant Capacity() == old(Capacity())
        invariant Written() == before + done && done + ItemsText(items[i..], depth, fmt) == whole
        invariant old(offset) + ItemsNeed(items, depth, fmt) <= Capacity()
          <==> offset + ItemsNeed(items[i..], depth, fmt) <= Capacity()
      {
        ghost var piece := Text(items[i], depth, fmt) + Comma(i == |items| - 1, fmt);
        ItemsTextStep(items, i, depth, fmt);
        ItemsNeedStep(items, i, depth, fmt);
        Absorb(before, done, piece, ItemsText(items[i + 1..], depth, fmt), ItemsText(items[i..], depth, fmt));
        ok := PrintItem(items[i], depth, i == |items| - 1, fmt);
        if !ok {
          return;
        }
        done := done + piece;
      }
      NothingLeft(depth, fmt);
      NoItems(items[|items|..], depth, fmt);
      assert items[|items|..] == [] && done == whole;
      ok := true;
    }

    /** The closing piece completes what was written since `before`. */
    lemma Close(before: string, open: string, text: string, close: string)
      requires Wrote(before + open + text, close)
      ensures Wrote(before, open + text + close)
    {
      assert before + open + text + close == before + (open + text + close);
    }

    method PrintObject(members: seq<Member>, depth: nat, fmt: bool) returns (out: Option<nat>)
      requires Valid() && forall i :: 0 <= i < |members| ==> NulFree(members[i].key) && Printable(members[i].value)
      modifies this, buffer
      ensures Valid() && (buffer == old(buffer) || (!noalloc && (buffer == null || fresh(buffer))))
      ensures out.Some? <==> old(buffer) != null && old(offset) + Need(Object(members), depth, fmt) <= old(Capacity())
      ensures out.Some? ==> out.value == Reported(Object(members), depth, fmt, old(offset))
      ensures out.Some? ==> Wrote(old(Written()), Text(Object(members), depth, fmt)) && Capacity() == old(Capacity())
      decreases members, 2
    {
      hide MembersText, Text, Need, MembersNeed, Capacity, Printable, Wrote;
      ObjectParts(members, depth, fmt);
      if members == [] {
        out := PrintEmptyObject(depth, fmt);
        return;
      }
      var start := offset;
      ghost var before := Written();
      var ok := Emit("{" + if fmt then "\n" else "", true);
      if !ok {
        return None;
      }
      assert "{" + (if fmt then "\n" else "") == "{" + If(fmt, "\n");
      ok := PrintMembers(members, depth + 1, fmt);
      if !ok {
        return None;
      }
      out := PrintText(If(fmt, Tabs(depth)) + "}", if fmt then depth + 2 else 2);
      if out.Some? {
        Close(before, "{" + If(fmt, "\n"), MembersText(members, depth + 1, fmt), If(fmt, Tabs(depth)) + "}");
        out := Some(if fmt then depth else start);
      }
    }

    method PrintEmptyObject(depth: nat, fmt: bool) returns (out: Option<nat>)
      requires Valid()
      modifies this`buffer, buffer
      ensures Valid() && (buffer == old(buffer) || (!noalloc && (buffer == null || fresh(buffer))))
      ensures out.Some? <==> old(buffer) != null && offset + (if fmt then depth + 4 else 3) <= old(Capacity())
      ensures out.Some? ==> out.value == offset
      ensures out.Some? ==> Wrote(old(Written()), Text(Object([]), depth, fmt)) && Capacity() == old(Capacity())
    {
      hide Text;
      var ok := Ensure(if fmt then depth + 4 else 3);
      if !ok {
        return None;
      }
      ghost var before := Written();
      FillEmptyObject(buffer, offset, depth, fmt);
      Extend(buffer, offset, before, Text(Object([]), depth, fmt));
      out := Some(offset);
    }

    /** A member up to its value. */
    method PrintKey(m: Member, depth: nat, fmt: bool) returns (ok: bool)
      requires Valid() && NulFree(m.key) && depth > 0
      modifies this, buffer
      ensures Valid() && (buffer == old(buffer) || (!noalloc && (buffer == null || fresh(buffer))))
      ensures ok <==> old(buffer) != null && old(offset) + |KeyText(m, depth, fmt)| <= old(Capacity())
      ensures ok ==> buffer != null && Written() == old(Written()) + KeyText(m, depth, fmt)
      ensures ok ==> Capacity() == old(Capacity()) && offset == old(offset) + |KeyText(m, depth, fmt)|
    {
      hide Quote, Capacity, Wrote, Written, NulFree, Tabs;
      QuoteNulFree(m.key);
      TabsLength(depth);
      if fmt {
        ok := Emit(Tabs(depth), false);
        if !ok {
          return;
        }
      }
      ghost var before := Written();
      WrittenLength();
      var out := PrintString(m.key);
      if out.None? {
        return false;
      }
      Update(before, Quote(m.key));
      ok := Emit(":" + if fmt then "\t" else "", false);
    }

    /** One member and what follows it. */
    method PrintMember(m: Member, depth: nat, last: bool, fmt: bool) returns (ok: bool)
      requires Valid() && NulFree(m.key) && Printable(m.value) && depth > 0
      modifies this, buffer
      ensures Valid() && (buffer == old(buffer) || (!noalloc && (buffer == null || fresh(buffer))))
      ensures ok <==> old(buffer) != null && old(offset) + Max(|KeyText(m, depth, fmt)| + Need(m.value, depth, fmt),
                                            |MemberText(m, depth, fmt)| + |LineEnd(last, fmt)| + 1) <= old(Capacity())
      ensures ok ==> buffer != null && Written() == old(Written()) + (MemberText(m, depth, fmt) + LineEnd(last, fmt))
      ensures ok ==> Capacity() == old(Capacity())
      ensures ok ==> offset == old(offset) + |MemberText(m, depth, fmt) + LineEnd(last, fmt)|
      decreases m, 1
    {
      hide Quote, Text, Need, Wrote, Capacity, Printable, NulFree, Tabs;
      NeedBounds(m.value, depth, fmt);
      TextNulFree(m.value, depth, fmt);
      ghost var start := Written();
      assert MemberText(m, depth, fmt) == KeyText(m, depth, fmt) + Text(m.value, depth, fmt);
      ok := PrintKey(m, depth, fmt);
      if !ok {
        return;
      }
      ghost var before := Written();
      var out := PrintValue(m.value, depth, fmt);
      if out.None? {
        return false;
      }
      Update(before, Text(m.value, depth, fmt));
      ok := Emit((if last then "" else ",") + if fmt then "\n" else "", true);
      assert (if last then "" else ",") + (if fmt then "\n" else "") == LineEnd(last, fmt);
      Append3(start, KeyText(m, depth, fmt), Text(m.value, depth, fmt), LineEnd(last, fmt));
    }

    /** The members, up to the closing line. */
    method PrintMembers(members: seq<Member>, depth: nat, fmt: bool) returns (ok: bool)
      requires Valid() && buffer != null && depth > 0
      requires forall i :: 0 <= i < |members| ==> NulFree(members[i].key) && Printable(members[i].value)
      modifies this, buffer
      ensures Valid() && (buffer == old(buffer) || (!noalloc && (buffer == null || fresh(buffer))))
      ensures ok && offset + (if fmt then depth + 1 else 2) <= Capacity()
        <==> old(offset) + MembersNeed(members, depth, fmt) <= old(Capacity())
      ensures ok ==> buffer != null && Capacity() == old(Capacity())
      ensures ok ==> Written() == old(Written()) + MembersText(members, depth, fmt)
      decreases members, 1
    {
      hide MembersText, MemberText, KeyText, Need, MembersNeed, Capacity, Printable, LineEnd, NulFree, Written, Wrote;
      ghost var before, done, whole: string := Written(), [], MembersText(members, depth, fmt);
      assert members[0..] == members && before + [] == before;
      for i := 0 to |members|
        invariant Valid() && buffer != null && (buffer == old(buffer) || (!noalloc && fresh(buffer)))
        invariant Capacity() == old(Capacity())
        invariant Written() == before + done && done + MembersText(members[i..], depth, fmt) == whole
        invariant old(offset) + MembersNeed(members, depth, fmt) <= Capacity()
          <==> offset + MembersNeed(members[i..], depth, fmt) <= Capacity()
      {
        ghost var piece := MemberText(members[i], depth, fmt) + LineEnd(i == |members| - 1, fmt);
        MembersTextStep(members, i, depth, fmt);
        MembersNeedStep(members, i, depth, fmt);
        Absorb(before, done, piece, MembersText(members[i + 1..], depth, fmt), MembersText(members[i..], depth, fmt));
        ok := PrintMember(members[i], depth, i == |members| - 1, fmt);
        if !ok {
          return;
        }
        done := done + piece;
      }
      NothingLeft(depth - 1, fmt);
      NoMembers(members[|members|..], depth, fmt);
      assert members[|members|..] == [] && done == whole;
      ok := true;
    }
  }

  // ---------- entry points ----------

  /** Print into a buffer that starts with room for `prebuffer` characters. */
  method PrintBuffered(j: Json, prebuffer: nat, fmt: bool) returns (out: array?<char>)
    requires Printable(j)
    ensures out != null <==> Need(j, 0, fmt) <= Max(prebuffer, LIMIT)
    ensures out != null ==> fresh(out) && Holds(out, 0, Text(j, 0, fmt))
  {
    hide Text, Need, Printable;
    var buffer := new char[prebuffer];
    var p := new PrintBuffer(buffer, false);
    assert p.Written() == [];
    var r := p.PrintValue(j, 0, fmt);
    if r.None? {
      return null;
    }
    assert r.value == 0;
    assert [] + Text(j, 0, fmt) == Text(j, 0, fmt);
    out := p.buffer;
  }

  /** Print into the caller's buffer, and say whether it was large enough. */
  method PrintPreallocated(j: Json, buffer: array?<char>, fmt: bool) returns (ok: bool)
    requires Printable(j)
    modifies buffer
    ensures ok <==> buffer != null && Need(j, 0, fmt) <= buffer.Length
    ensures ok ==> Holds(buffer, 0, Text(j, 0, fmt))
  {
    hide Text, Need, Printable;
    var p := new PrintBuffer(buffer, true);
    var r := p.PrintValue(j, 0, fmt);
    ok := r.Some?;
    if ok {
      assert [] + Text(j, 0, fmt) == Text(j, 0, fmt);
    }
  }
}
