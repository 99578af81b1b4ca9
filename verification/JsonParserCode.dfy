/** The parser as loops over positions in the input; each routine is proved equal to its function in
    JsonParser. */
module JsonParserCode {
  import opened Common
  import opened JsonText
  import opened JsonStrings
  import opened JsonParser

  /** A routine returns a value and the position after it exactly when its function succeeds. */
  ghost predicate Agrees<T>(r: Option<(T, nat)>, spec: Result<T>, text: string) {
    match spec
    case Fail => r.None?
    case Ok(value, rest) => r.Some? && r.value.0 == value && r.value.1 <= |text| && text[r.value.1..] == rest
  }

  lemma Drop(text: string, i: nat, k: nat)
    requires i + k <= |text|
    ensures text[i..][k..] == text[i + k..]
  {
  }

  method SkipFrom(text: string, pos: nat) returns (end: nat)
    requires pos <= |text|
    ensures pos <= end <= |text| && text[end..] == Skip(text[pos..])
  {
    end := pos;
    while end < |text| && text[end] != '\0' && text[end] as int <= 32
      invariant pos <= end <= |text| && Skip(text[end..]) == Skip(text[pos..])
    {
      Drop(text, end, 1);
      end := end + 1;
    }
  }

  // ---------- numbers ----------

  method DigitsFrom(text: string, pos: nat, acc: real) returns (n: real, end: nat)
    requires pos <= |text|
    ensures pos <= end <= |text| && (n, text[end..]) == TakeDigits(text[pos..], acc)
  {
    n, end := acc, pos;
    while IsDigit(At(text, end))
      invariant pos <= end <= |text| && TakeDigits(text[end..], n) == TakeDigits(text[pos..], acc)
      decreases |text| - end
    {
      Drop(text, end, 1);
      n := n * 10.0 + DigitValue(text[end]) as real;
      end := end + 1;
    }
  }

  method IntFrom(text: string, pos: nat) returns (n: int, end: nat)
    requires pos <= |text|
    ensures pos <= end <= |text| && (n, text[end..]) == TakeInt(text[pos..], 0)
  {
    n, end := 0, pos;
    while IsDigit(At(text, end))
      invariant pos <= end <= |text| && TakeInt(text[end..], n) == TakeInt(text[pos..], 0)
      decreases |text| - end
    {
      Drop(text, end, 1);
      n := n * 10 + DigitValue(text[end]);
      end := end + 1;
    }
  }

  method ExponentFrom(text: string, pos: nat) returns (k: int, end: nat)
    requires pos <= |text|
    ensures pos <= end <= |text| && (k, text[end..]) == ParseExponent(text[pos..])
  {
    k, end := 0, pos;
    if At(text, pos) == 'e' || At(text, pos) == 'E' {
      if At(text, pos + 1) == '+' {
        Drop(text, pos, 2);
        k, end := IntFrom(text, pos + 2);
      } else if At(text, pos + 1) == '-' {
        Drop(text, pos, 2);
        k, end := IntFrom(text, pos + 2);
        k := -k;
      } else {
        Drop(text, pos, 1);
        k, end := IntFrom(text, pos + 1);
      }
    }
  }

  method FractionFrom(text: string, pos: nat, n0: real) returns (n: real, scale: int, end: nat)
    requires pos <= |text|
    ensures pos <= end <= |text| && (n, scale, text[end..]) == ParseFraction(text[pos..], n0)
  {
    n, scale, end := n0, 0, pos;
    if At(text, pos) == '.' && IsDigit(At(text, pos + 1)) {
      Drop(text, pos, 1);
      n, end := DigitsFrom(text, pos + 1, n);
      scale := -(end - (pos + 1));
    }
  }

  lemma UnsignedParts(s: string, s1: string, m: real, s2: string, n: real, scale: int, s3: string, subscale: int,
                      s4: string)
    requires s1 == if At(s, 0) == '0' then s[1..] else s
    requires (m, s2) == if '1' <= At(s1, 0) <= '9' then TakeDigits(s1, 0.0) else (0.0, s1)
    requires (n, scale, s3) == ParseFraction(s2, m) && (subscale, s4) == ParseExponent(s3)
    ensures ParseUnsigned(s).0 == n * Pow10(scale + subscale) && ParseUnsigned(s).1 == s4
  {
    hide Pow10, TakeDigits, ParseFraction, ParseExponent;
    var value := n * Pow10(scale + subscale);
    assert ParseUnsigned(s).0 == value;
  }

  method UnsignedFrom(text: string, pos: nat) returns (value: real, end: nat)
    requires pos <= |text|
    ensures pos <= end <= |text| && value == ParseUnsigned(text[pos..]).0 && text[end..] == ParseUnsigned(text[pos..]).1
  {
    hide TakeDigits, ParseFraction, ParseExponent, Pow10;
    var n, scale, subscale := 0.0, 0, 0;
    end := pos;
    if At(text, end) == '0' {
      Drop(text, end, 1);
      end := end + 1;
    }
    ghost var s1 := text[end..];
    if '1' <= At(text, end) <= '9' {
      n, end := DigitsFrom(text, end, 0.0);
    }
    ghost var (m, s2) := (n, text[end..]);
    n, scale, end := FractionFrom(text, end, n);
    ghost var s3 := text[end..];
    subscale, end := ExponentFrom(text, end);
    value := n * Pow10(scale + subscale);
    UnsignedParts(text[pos..], s1, m, s2, n, scale, s3, subscale, text[end..]);
  }

  method ParseNumberAt(text: string, pos: nat) returns (value: real, end: nat)
    requires pos <= |text|
    ensures pos <= end <= |text| && (value, text[end..]) == ParseNumber(text[pos..])
  {
    hide ParseUnsigned;
    if At(text, pos) == '-' {
      Drop(text, pos, 1);
      value, end := UnsignedFrom(text, pos + 1);
      value := -1.0 * value;
    } else {
      value, end := UnsignedFrom(text, pos);
    }
  }

  // ---------- strings ----------

  /** What the scan from `t` counts on its way to the end of the body. */
  function ScanCount(t: string): nat
    requires BodyLength(t).Some?
  {
    if t == [] || t[0] == '\"' || t[0] == '\0' then 0
    else if t[0] == '\\' then 1 + ScanCount(t[2..])
    else 1 + ScanCount(t[1..])
  }

  /** No backslash is left without the character it hides. */
  predicate Whole(body: string) {
    body == []
    || (body[0] != '\\' && Whole(body[1..]))
    || (body[0] == '\\' && |body| >= 2 && Whole(body[2..]))
  }

  lemma {:induction false} ScanCounts(t: string)
    requires BodyLength(t).Some?
    ensures ScanCount(t) == Count(t[..BodyLength(t).value]) && Whole(t[..BodyLength(t).value])
    decreases |t|
  {
    var n := BodyLength(t).value;
    if t == [] || t[0] == '\"' || t[0] == '\0' {
    } else if t[0] == '\\' {
      ScanCounts(t[2..]);
      assert t[..n][2..] == t[2..][..n - 2];
    } else {
      ScanCounts(t[1..]);
      assert t[..n][1..] == t[1..][..n - 1];
    }
  }

  /** Find the end of the body that starts at `start`, counting as it goes. */
  method ScanBody(text: string, start: nat) returns (ok: bool, end: nat, len: nat)
    requires start <= |text|
    ensures ok <==> BodyLength(text[start..]).Some?
    ensures ok ==> start <= end <= |text| && end - start == BodyLength(text[start..]).value
    ensures ok ==> len == Count(text[start..end]) && Whole(text[start..end]) && !IsHex(At(text, end))
  {
    ghost var whole := BodyLength(text[start..]);
    end, len := start, 0;
    while At(text, end) != '\"' && At(text, end) != '\0'
      invariant start <= end <= |text|
      invariant whole.Some? <==> BodyLength(text[end..]).Some?
      invariant whole.Some? ==> whole.value == end - start + BodyLength(text[end..]).value
      invariant whole.Some? ==> ScanCount(text[start..]) == len + ScanCount(text[end..])
      decreases |text| - end
    {
      len := len + 1;
      if text[end] == '\\' {
        if At(text, end + 1) == '\0' {
          ok, end, len := false, 0, 0;
          return;
        }
        Drop(text, end, 2);
        end := end + 2;
      } else {
        Drop(text, end, 1);
        end := end + 1;
      }
    }
    ok := true;
    ScanCounts(text[start..]);
    assert text[start..][..end - start] == text[start..end];
  }

  /** The bytes of a UTF-8 form from the last one back, each from six bits less of `u`. */
  lemma Utf8Backwards(u: int)
    requires 0 <= u <= 0x10FFFF
    ensures var (s, u1, u2) := (Utf8(u), u / 0x40, u / 0x40 / 0x40);
      match Utf8Length(u)
      case 1 => s == [CharOf(u)]
      case 2 => 0xC0 + u1 < 256 && s == [CharOf(0xC0 + u1), Tail(u)]
      case 3 => 0xE0 + u2 < 256 && s == [CharOf(0xE0 + u2), Tail(u1), Tail(u)]
      case _ => 0xF0 + u2 / 0x40 < 256 && s == [CharOf(0xF0 + u2 / 0x40), Tail(u2), Tail(u1), Tail(u)]
  {
    hide Tail, CharOf;
  }

  /** Write the UTF-8 form of `u` at `at`, last byte first. */
  method WriteUtf8(out: array<char>, at: nat, u: int) returns (next: nat)
    requires 0 <= u <= 0x10FFFF && at + Utf8Length(u) <= out.Length
    modifies out
    ensures next == at + Utf8Length(u) && out[..next] == old(out[..at]) + Utf8(u)
  {
    hide Tail, CharOf, Utf8;
    Utf8Backwards(u);
    var uc: nat := u;
    var len := Utf8Length(u);
    var firstByteMark := if len == 1 then 0 else if len == 2 then 0xC0 else if len == 3 then 0xE0 else 0xF0;
    next := at + len;
    if len == 4 {
      next := next - 1;
      out[next] := Tail(uc);
      uc := uc / 0x40;
    }
    if len >= 3 {
      next := next - 1;
      out[next] := Tail(uc);
      uc := uc / 0x40;
    }
    if len >= 2 {
      next := next - 1;
      out[next] := Tail(uc);
      uc := uc / 0x40;
    }
    next := next - 1;
    out[next] := CharOf(firstByteMark + uc);
    next := next + len;
    assert out[at..next] == Utf8(u);
    assert out[..at] == old(out[..at]);
    assert out[..next] == out[..at] + out[at..next];
  }

  /** The length and the bytes of the Unicode escape at the front of `body`, if it is a valid one. */
  function UnicodeEscape(body: string): (r: Option<(nat, string)>)
    requires |body| >= 6
    ensures r.Some? ==> r.value.0 <= |body|
  {
    var uc := Hex4(body[2..6]);
    if IsLowSurrogate(uc) || uc == 0 then None
    else if !IsHighSurrogate(uc) then Some((6, Utf8(uc)))
    else if |body| < 12 || body[6] != '\\' || body[7] != 'u' || !IsLowSurrogate(Hex4(body[8..12])) then None
    else Some((12, Utf8(JoinSurrogates(uc, Hex4(body[8..12])))))
  }

  lemma PlainStep(body: string)
    requires body != [] && body[0] != '\\'
    ensures Decode(body) == Prefixed([body[0]], Decode(body[1..])) && Count(body) == 1 + Count(body[1..])
  {
  }

  lemma ShortStep(body: string)
    requires |body| >= 2 && body[0] == '\\' && ShortEscape(body[1]).Some?
    ensures Decode(body) == Prefixed([ShortEscape(body[1]).value], Decode(body[2..])) && Count(body) == 1 + Count(body[2..])
  {
  }

  lemma UnicodeDecodes(body: string)
    requires |body| >= 6 && body[0] == '\\' && body[1] == 'u' && UnicodeEscape(body).Some?
    ensures var (n, bytes) := UnicodeEscape(body).value;
      Decode(body) == Prefixed(bytes, Decode(body[n..]))
  {
    hide Hex4, Utf8, JoinSurrogates;
  }

  lemma UnitWhole(body: string)
    requires |body| >= 6 && body[0] == '\\' && body[1] == 'u' && Hex4(body[2..6]) != 0 && Whole(body)
    ensures Whole(body[6..])
  {
    hide HexValue;
    HexWhole(body[2..], 4);
    assert body[2..][4..] == body[6..];
  }

  lemma {:induction false} HexWhole(t: string, k: nat)
    requires k <= |t| && forall i :: 0 <= i < k ==> t[i] != '\\'
    ensures Whole(t) ==> Whole(t[k..])
  {
    if k > 0 {
      HexWhole(t[1..], k - 1);
      assert t[1..][k - 1..] == t[k..];
    } else {
      assert t[0..] == t;
    }
  }

  lemma UnicodeCounts(body: string)
    requires |body| >= 6 && body[0] == '\\' && body[1] == 'u' && UnicodeEscape(body).Some?
    ensures var (n, bytes) := UnicodeEscape(body).value;
      Count(body) >= |bytes| + Count(body[n..]) && (Whole(body) ==> Whole(body[n..]))
  {
    hide HexValue, Utf8, JoinSurrogates, Decode;
    UnitCounts(body);
    if Whole(body) {
      UnitWhole(body);
    }
    if UnicodeEscape(body).value.0 == 12 {
      assert body[6..][2..6] == body[8..12] && body[6..][6..] == body[12..];
      UnitCounts(body[6..]);
      if Whole(body) {
        UnitWhole(body[6..]);
      }
    }
  }

  lemma FailingStep(body: string)
    requires |body| >= 2 && body[0] == '\\' && ShortEscape(body[1]).None?
    requires body[1] != 'u' || |body| < 6 || UnicodeEscape(body).None?
    ensures Decode(body).None?
  {
    hide Hex4, Utf8;
  }

  lemma Slice(text: string, start: nat, end: nat, i: nat, k: nat)
    requires start <= end <= |text| && i <= k <= end - start
    ensures text[start..end][i..k] == text[start + i..start + k]
  {
    var a, b := text[start..end][i..k], text[start + i..start + k];
    assert |a| == |b| && forall j :: 0 <= j < |a| ==> a[j] == b[j];
  }

  /** Four hexadecimal digits of the input, zero if there are not that many. */
  function Hex4At(text: string, i: nat): (v: int)
    ensures 0 <= v < 0x10000
  {
    if i + 4 <= |text| then Hex4(text[i..i + 4]) else 0
  }

  /** Decode the Unicode escape whose backslash is at `ptr`; `end` is the end of the body. */
  method DecodeUnicode(text: string, ptr: nat, end: nat) returns (r: Option<(nat, int)>)
    requires ptr + 2 <= end <= |text| && text[ptr + 1] == 'u' && !IsHex(At(text, end))
    ensures r.None? <==> (end - ptr < 6 || UnicodeEscape(text[ptr..end]).None?)
    ensures r.Some? ==> 0 <= r.value.1 <= 0x10FFFF && ptr < r.value.0 <= end
    ensures r.Some? && end - ptr >= 6 ==> UnicodeEscape(text[ptr..end]) == Some((r.value.0 - ptr, Utf8(r.value.1)))
  {
    hide HexValue, Utf8;
    ghost var body := text[ptr..end];
    var at := ptr + 1;
    var uc := Hex4At(text, at + 1);
    at := at + 4;
    if at >= end {
      return None;
    }
    Slice(text, ptr, end, 2, 6);
    if IsLowSurrogate(uc) || uc == 0 {
      return None;
    }
    if !IsHighSurrogate(uc) {
      return Some((at + 1, uc));
    }
    if at + 6 > end {
      return None;
    }
    assert body[6] == text[at + 1] && body[7] == text[at + 2];
    if text[at + 1] != '\\' || text[at + 2] != 'u' {
      return None;
    }
    var uc2 := Hex4At(text, at + 3);
    if !IsLowSurrogate(uc2) {
      if |body| >= 12 {
        Slice(text, ptr, end, 8, 12);
      }
      return None;
    }
    assert text[ptr + 8..ptr + 12][3] == text[ptr + 11];
    Slice(text, ptr, end, 8, 12);
    r := Some((at + 7, JoinSurrogates(uc, uc2)));
  }

  lemma DecodeDone(done: string)
    ensures Prefixed(done, Decode([])) == Some(done)
  {
    assert done + [] == done;
  }

  lemma CountNotEmpty(body: string)
    ensures Count(body) >= 0 && (body != [] ==> Count(body) >= 1)
  {
  }

  /** The second pass: decode into a buffer of the size that the first one counted, plus the terminator. */
  method DecodeBody(text: string, start: nat, end: nat, len: nat) returns (r: Option<string>)
    requires start <= end <= |text| && len == Count(text[start..end]) && Whole(text[start..end]) && !IsHex(At(text, end))
    ensures r == Decode(text[start..end])
  {
    hide Decode, Count, UnicodeEscape, ShortEscape, Utf8, Prefixed, IsHex, Hex4;
    ghost var body := text[start..end];
    var out := new char[len + 1];
    var ptr := start;
    var ptr2: nat := 0;
    ghost var left, done: string := body, [];
    PrefixNothing(Decode(body));
    while ptr < end
      invariant start <= ptr <= end && left == text[ptr..end]
      invariant ptr2 <= len && ptr2 + Count(left) <= len && Whole(left)
      invariant done == out[..ptr2] && Decode(body) == Prefixed(done, Decode(left))
    {
      CountNotEmpty(left);
      if text[ptr] != '\\' {
        PlainStep(left);
        PrefixTwice(done, [text[ptr]], Decode(left[1..]));
        out[ptr2] := text[ptr];
        done, left := done + [text[ptr]], left[1..];
        ptr, ptr2 := ptr + 1, ptr2 + 1;
      } else if ShortEscape(text[ptr + 1]).Some? {
        ShortStep(left);
        var c := ShortEscape(text[ptr + 1]).value;
        PrefixTwice(done, [c], Decode(left[2..]));
        out[ptr2] := c;
        done, left := done + [c], left[2..];
        ptr, ptr2 := ptr + 2, ptr2 + 1;
      } else if text[ptr + 1] == 'u' {
        var u := DecodeUnicode(text, ptr, end);
        if u.None? {
          FailingStep(left);
          PrefixFails(done);
          return None;
        }
        var (next, uc) := u.value;
        UnicodeDecodes(left);
        UnicodeCounts(left);
        PrefixTwice(done, Utf8(uc), Decode(left[next - ptr..]));
        ptr2 := WriteUtf8(out, ptr2, uc);
        done, left := done + Utf8(uc), left[next - ptr..];
        ptr := next;
      } else {
        FailingStep(left);
        PrefixFails(done);
        return None;
      }
    }
    out[ptr2] := '\0';
    DecodeDone(done);
    assert left == [];
    r := Some(out[..ptr2]);
  }

  lemma PrefixFails(done: string)
    ensures Prefixed(done, None) == None
  {
  }

  lemma StringUnfold(text: string, pos: nat, end: nat)
    requires pos < end <= |text| && text[pos] == '\"' && BodyLength(text[pos + 1..]) == Some(end - (pos + 1))
    ensures var decoded := Decode(text[pos + 1..end]);
      var after := if At(text, end) == '\"' then end + 1 else end;
      ParseString(text[pos..]) == if decoded.None? then Fail else Ok(decoded.value, text[after..])
  {
    hide BodyLength, Decode;
    var t := text[pos + 1..];
    var n := end - (pos + 1);
    Drop(text, pos, 1);
    Drop(text, pos + 1, n);
    assert t[..n] == text[pos + 1..end] && At(t, n) == At(text, end);
    if n < |t| {
      Drop(text, pos + 1, n + 1);
    }
  }

  lemma StringFails(text: string, pos: nat)
    requires pos <= |text| && (At(text, pos) != '\"' || BodyLength(text[pos + 1..]).None?)
    ensures ParseString(text[pos..]).Fail?
  {
    hide BodyLength, Decode;
    if pos < |text| {
      Drop(text, pos, 1);
    }
  }

  /** Find the end of a literal, then decode it. */
  method ParseStringAt(text: string, pos: nat) returns (r: Option<(string, nat)>)
    requires pos <= |text|
    ensures Agrees(r, ParseString(text[pos..]), text)
  {
    hide BodyLength, Decode, Count, Whole, ParseString, IsHex;
    if At(text, pos) != '\"' {
      StringFails(text, pos);
      return None;
    }
    var ok, end, len := ScanBody(text, pos + 1);
    if !ok {
      StringFails(text, pos);
      return None;
    }
    StringUnfold(text, pos, end);
    var decoded := DecodeBody(text, pos + 1, end, len);
    if decoded.None? {
      return None;
    }
    r := Some((decoded.value, if At(text, end) == '\"' then end + 1 else end));
  }

  // ---------- values ----------

  /** `items` in front of what is parsed later. */
  function Joined<T>(items: seq<T>, r: Result<seq<T>>): Result<seq<T>> {
    if r.Fail? then Fail else Ok(items + r.value, r.rest)
  }

  lemma JoinTwice<T>(a: seq<T>, b: seq<T>, r: Result<seq<T>>)
    ensures Joined(a, Joined(b, r)) == Joined(a + b, r)
  {
    if r.Ok? {
      assert a + (b + r.value) == a + b + r.value;
    }
  }

  /** An array from just after one of its elements and the space behind it. */
  function AfterItem(t: string): Result<seq<Json>> {
    if At(t, 0) == ',' then ParseItems(t[1..]) else if At(t, 0) == ']' then Ok([], t[1..]) else Fail
  }

  function AfterMember(t: string): Result<seq<Member>> {
    if At(t, 0) == ',' then ParseMembers(t[1..]) else if At(t, 0) == '}' then Ok([], t[1..]) else Fail
  }

  lemma ItemsUnfold(s: string)
    ensures var r := ParseValue(Skip(s));
      ParseItems(s) == if r.Fail? then Fail else Joined([r.value], AfterItem(Skip(r.rest)))
  {
    hide ParseValue, Skip;
    var r := ParseValue(Skip(s));
    if r.Ok? {
      assert [r.value] + [] == [r.value];
    }
  }

  lemma MembersUnfold(s: string)
    ensures var r := ParseMember(s);
      ParseMembers(s) == if r.Fail? then Fail else Joined([r.value], AfterMember(Skip(r.rest)))
  {
    hide ParseMember, Skip;
    var r := ParseMember(s);
    if r.Ok? {
      assert [r.value] + [] == [r.value];
    }
  }

  lemma ArrayUnfold(s: string)
    requires s != [] && s[0] == '['
    ensures var t := Skip(s[1..]);
      ParseValue(s) ==
        if At(t, 0) == ']' then Ok(Array([]), t[1..])
        else if ParseItems(t).Fail? then Fail else Ok(Array(ParseItems(t).value), ParseItems(t).rest)
  {
    hide ParseItems, Skip;
  }

  lemma ObjectUnfold(s: string)
    requires s != [] && s[0] == '{'
    ensures var t := Skip(s[1..]);
      ParseValue(s) ==
        if At(t, 0) == '}' then Ok(Object([]), t[1..])
        else if ParseMembers(t).Fail? then Fail else Ok(Object(ParseMembers(t).value), ParseMembers(t).rest)
  {
    hide ParseMembers, Skip;
  }

  lemma ValueUnfold(s: string)
    requires At(s, 0) != '[' && At(s, 0) != '{'
    ensures ParseValue(s) ==
      if "null" <= s then Ok(Null, s[4..])
      else if "false" <= s then Ok(False, s[5..])
      else if "true" <= s then Ok(True, s[4..])
      else if At(s, 0) == '\"' then
        if ParseString(s).Fail? then Fail else Ok(String(ParseString(s).value), ParseString(s).rest)
      else if At(s, 0) == '-' || IsDigit(At(s, 0)) then Ok(Number(ParseNumber(s).0), ParseNumber(s).1)
      else Fail
  {
    hide ParseString, ParseNumber;
  }

  /** strncmp against a keyword. */
  predicate Begins(text: string, pos: nat, word: string)
    requires pos <= |text|
  {
    pos + |word| <= |text| && text[pos..pos + |word|] == word
  }

  lemma BeginsIsPrefix(text: string, pos: nat, word: string)
    requires pos <= |text|
    ensures Begins(text, pos, word) <==> word <= text[pos..]
    ensures Begins(text, pos, word) ==> text[pos..][|word|..] == text[pos + |word|..]
  {
    if pos + |word| <= |text| {
      assert text[pos..][..|word|] == text[pos..pos + |word|];
    }
  }

  method ParseValueAt(text: string, pos: nat) returns (r: Option<(Json, nat)>)
    requires pos <= |text|
    ensures Agrees(r, ParseValue(text[pos..]), text)
    decreases |text| - pos, 1
  {
    hide ParseValue, ParseString, ParseNumber;
    BeginsIsPrefix(text, pos, "null");
    BeginsIsPrefix(text, pos, "false");
    BeginsIsPrefix(text, pos, "true");
    if At(text, pos) == '[' {
      r := ParseArrayAt(text, pos);
      return;
    }
    if At(text, pos) == '{' {
      r := ParseObjectAt(text, pos);
      return;
    }
    ValueUnfold(text[pos..]);
    if Begins(text, pos, "null") {
      r := Some((Null, pos + 4));
    } else if Begins(text, pos, "false") {
      r := Some((False, pos + 5));
    } else if Begins(text, pos, "true") {
      r := Some((True, pos + 4));
    } else if At(text, pos) == '\"' {
      var s := ParseStringAt(text, pos);
      r := if s.None? then None else Some((String(s.value.0), s.value.1));
    } else if At(text, pos) == '-' || IsDigit(At(text, pos)) {
      var n, end := ParseNumberAt(text, pos);
      r := Some((Number(n), end));
    } else {
      r := None;
    }
  }

  /** A value after optional space, and the position after the space behind it. */
  method ParseItemAt(text: string, pos: nat) returns (r: Option<(Json, nat)>)
    requires pos <= |text|
    ensures var spec := ParseValue(Skip(text[pos..]));
      if spec.Fail? then r.None?
      else r.Some? && r.value.0 == spec.value && pos < r.value.1 <= |text| && text[r.value.1..] == Skip(spec.rest)
    decreases |text| - pos, 2
  {
    hide ParseValue, Skip;
    var start := SkipFrom(text, pos);
    var v := ParseValueAt(text, start);
    if v.None? {
      return None;
    }
    var end := SkipFrom(text, v.value.1);
    r := Some((v.value.0, end));
  }

  method ParseArrayAt(text: string, pos: nat) returns (r: Option<(Json, nat)>)
    requires pos < |text| && text[pos] == '['
    ensures Agrees(r, ParseValue(text[pos..]), text)
    decreases |text| - pos, 0
  {
    hide ParseValue, ParseItems, Skip, Joined;
    ArrayUnfold(text[pos..]);
    Drop(text, pos, 1);
    var value := SkipFrom(text, pos + 1);
    if At(text, value) == ']' {
      Drop(text, value, 1);
      return Some((Array([]), value + 1));
    }
    ghost var whole := ParseItems(text[value..]);
    ItemsUnfold(text[value..]);
    var child := ParseItemAt(text, value);
    if child.None? {
      return None;
    }
    var items := [child.value.0];
    value := child.value.1;
    while At(text, value) == ','
      invariant pos < value <= |text| && whole == Joined(items, AfterItem(text[value..]))
      decreases |text| - value
    {
      Drop(text, value, 1);
      ItemsUnfold(text[value + 1..]);
      var item := ParseItemAt(text, value + 1);
      if item.None? {
        JoinFails(items);
        return None;
      }
      JoinTwice(items, [item.value.0], AfterItem(text[item.value.1..]));
      items := items + [item.value.0];
      value := item.value.1;
    }
    if At(text, value) == ']' {
      Drop(text, value, 1);
      JoinEnds(items, text[value + 1..]);
      return Some((Array(items), value + 1));
    }
    JoinFails(items);
    r := None;
  }

  lemma JoinFails<T>(items: seq<T>)
    ensures Joined(items, Fail) == Fail
  {
  }

  lemma JoinEnds<T>(items: seq<T>, rest: string)
    ensures Joined(items, Ok([], rest)) == Ok(items, rest)
  {
    assert items + [] == items;
  }

  /** A key, a colon and a value, and the position after the space behind them. */
  method ParseMemberAt(text: string, pos: nat) returns (r: Option<(Member, nat)>)
    requires pos <= |text|
    ensures var spec := ParseMember(text[pos..]);
      if spec.Fail? then r.None?
      else r.Some? && r.value.0 == spec.value && pos < r.value.1 <= |text| && text[r.value.1..] == Skip(spec.rest)
    decreases |text| - pos, 2
  {
    hide ParseValue, ParseString, Skip;
    var start := SkipFrom(text, pos);
    var key := ParseStringAt(text, start);
    if key.None? {
      return None;
    }
    var colon := SkipFrom(text, key.value.1);
    if At(text, colon) != ':' {
      return None;
    }
    Drop(text, colon, 1);
    var v := ParseItemAt(text, colon + 1);
    if v.None? {
      return None;
    }
    r := Some((Member(key.value.0, v.value.0), v.value.1));
  }

  method ParseObjectAt(text: string, pos: nat) returns (r: Option<(Json, nat)>)
    requires pos < |text| && text[pos] == '{'
    ensures Agrees(r, ParseValue(text[pos..]), text)
    decreases |text| - pos, 0
  {
    hide ParseValue, ParseMember, ParseMembers, Skip, Joined;
    ObjectUnfold(text[pos..]);
    Drop(text, pos, 1);
    var value := SkipFrom(text, pos + 1);
    if At(text, value) == '}' {
      Drop(text, value, 1);
      return Some((Object([]), value + 1));
    }
    ghost var whole := ParseMembers(text[value..]);
    MembersUnfold(text[value..]);
    var child := ParseMemberAt(text, value);
    if child.None? {
      return None;
    }
    var members := [child.value.0];
    value := child.value.1;
    while At(text, value) == ','
      invariant pos < value <= |text| && whole == Joined(members, AfterMember(text[value..]))
      decreases |text| - value
    {
      Drop(text, value, 1);
      MembersUnfold(text[value + 1..]);
      var member := ParseMemberAt(text, value + 1);
      if member.None? {
        JoinFails(members);
        return None;
      }
      JoinTwice(members, [member.value.0], AfterMember(text[member.value.1..]));
      members := members + [member.value.0];
      value := member.value.1;
    }
    if At(text, value) == '}' {
      Drop(text, value, 1);
      JoinEnds(members, text[value + 1..]);
      return Some((Object(members), value + 1));
    }
    JoinFails(members);
    r := None;
  }

  /** The entry point. */
  method ParseText(text: string, requireNullTerminated: bool) returns (r: Option<(Json, nat)>)
    ensures Agrees(r, Parse(text, requireNullTerminated), text)
  {
    hide ParseValue, Skip;
    assert text[0..] == text;
    var start := SkipFrom(text, 0);
    r := ParseValueAt(text, start);
    if r.Some? && requireNullTerminated {
      var end := SkipFrom(text, r.value.1);
      if At(text, end) != '\0' {
        return None;
      }
      r := Some((r.value.0, end));
    }
  }
}
