/** The recursive-descent parser. Its input is a C string: reading at the end yields NUL. */
module JsonParser {
  import opened Common
  import opened JsonText
  import opened JsonStrings

  /** A parse either fails or yields a value and what follows it. */
  datatype Result<+T> = Fail | Ok(value: T, rest: string)

  function At(s: string, i: nat): char {
    if i < |s| then s[i] else '\0'
  }

  /** Jump white space: everything up to code 32 except the terminator. */
  function Skip(s: string): (rest: string)
    ensures |rest| <= |s|
  {
    if s != [] && s[0] != '\0' && s[0] as int <= 32 then Skip(s[1..]) else s
  }

  // ---------- numbers ----------

  predicate IsDigit(c: char) {
    '0' <= c <= '9'
  }

  function DigitValue(c: char): int
    requires IsDigit(c)
  {
    c as int - '0' as int
  }

  /** Append digits to `acc` as long as there are any. */
  function TakeDigits(s: string, acc: real): (r: (real, string))
    ensures |r.1| <= |s| && (s != [] && IsDigit(s[0]) ==> |r.1| < |s|)
    decreases |s|
  {
    if s != [] && IsDigit(s[0]) then TakeDigits(s[1..], acc * 10.0 + DigitValue(s[0]) as real) else (acc, s)
  }

  function TakeInt(s: string, acc: int): (r: (int, string))
    ensures |r.1| <= |s|
    decreases |s|
  {
    if s != [] && IsDigit(s[0]) then TakeInt(s[1..], acc * 10 + DigitValue(s[0])) else (acc, s)
  }

  function Pow10(k: int): real
    decreases if k < 0 then -k else k
  {
    if k == 0 then 1.0 else if k > 0 then 10.0 * Pow10(k - 1) else Pow10(k + 1) / 10.0
  }

  function ParseFraction(s: string, n: real): (r: (real, int, string))
    ensures |r.2| <= |s|
  {
    if At(s, 0) == '.' && IsDigit(At(s, 1)) then
      var (m, rest) := TakeDigits(s[1..], n);
      (m, -(|s| - 1 - |rest|), rest)
    else (n, 0, s)
  }

  function ParseExponent(s: string): (r: (int, string))
    ensures |r.1| <= |s|
  {
    if At(s, 0) == 'e' || At(s, 0) == 'E' then
      if At(s, 1) == '+' then TakeInt(s[2..], 0)
      else if At(s, 1) == '-' then
        var (k, rest) := TakeInt(s[2..], 0);
        (-k, rest)
      else TakeInt(s[1..], 0)
    else (0, s)
  }

  /** An optional zero, digits, fraction, exponent. */
  function ParseUnsigned(s: string): (r: (real, string))
    ensures |r.1| <= |s| && (s != [] && IsDigit(s[0]) ==> |r.1| < |s|)
  {
    var s1 := if At(s, 0) == '0' then s[1..] else s;
    var (n, s2) := if '1' <= At(s1, 0) <= '9' then TakeDigits(s1, 0.0) else (0.0, s1);
    var (m, scale, s3) := ParseFraction(s2, n);
    var (subscale, s4) := ParseExponent(s3);
    (m * Pow10(scale + subscale), s4)
  }

  /** A number never fails: a lone sign is zero. */
  function ParseNumber(s: string): (r: (real, string))
    ensures |r.1| <= |s| && (s != [] && (s[0] == '-' || IsDigit(s[0])) ==> |r.1| < |s|)
  {
    if At(s, 0) == '-' then
      var (n, rest) := ParseUnsigned(s[1..]);
      (-1.0 * n, rest)
    else ParseUnsigned(s)
  }

  // ---------- strings ----------

  /** A literal; a missing closing quote is accepted at the end of the input. */
  function ParseString(s: string): (r: Result<string>)
    ensures r.Ok? ==> |r.rest| < |s|
  {
    if At(s, 0) != '\"' then Fail else
      var t := s[1..];
      var n := BodyLength(t);
      if n.None? then Fail else
        var decoded := Decode(t[..n.value]);
        var rest := if At(t, n.value) == '\"' then t[n.value + 1..] else t[n.value..];
        if decoded.None? then Fail else Ok(decoded.value, rest)
  }

  // ---------- values ----------

  /** What a value begins with decides what it is. */
  function ParseValue(s: string): (r: Result<Json>)
    ensures r.Ok? ==> |r.rest| < |s|
    decreases |s|, 2
  {
    if "null" <= s then Ok(Null, s[4..])
    else if "false" <= s then Ok(False, s[5..])
    else if "true" <= s then Ok(True, s[4..])
    else if At(s, 0) == '\"' then
      var r := ParseString(s);
      if r.Fail? then Fail else Ok(String(r.value), r.rest)
    else if At(s, 0) == '-' || IsDigit(At(s, 0)) then
      var (n, rest) := ParseNumber(s);
      Ok(Number(n), rest)
    else if At(s, 0) == '[' then
      var t := Skip(s[1..]);
      if At(t, 0) == ']' then Ok(Array([]), t[1..]) else
        var r := ParseItems(t);
        if r.Fail? then Fail else Ok(Array(r.value), r.rest)
    else if At(s, 0) == '{' then
      var t := Skip(s[1..]);
      if At(t, 0) == '}' then Ok(Object([]), t[1..]) else
        var r := ParseMembers(t);
        if r.Fail? then Fail else Ok(Object(r.value), r.rest)
    else Fail
  }

  /** The rest of an array, from its next element on. */
  function ParseItems(s: string): (r: Result<seq<Json>>)
    ensures r.Ok? ==> |r.rest| < |s|
    decreases |s|, 3
  {
    var r := ParseValue(Skip(s));
    if r.Fail? then Fail else
      var t := Skip(r.rest);
      if At(t, 0) == ',' then
        var more := ParseItems(t[1..]);
        if more.Fail? then Fail else Ok([r.value] + more.value, more.rest)
      else if At(t, 0) == ']' then Ok([r.value], t[1..])
      else Fail
  }

  /** A key, a colon and a value. */
  function ParseMember(s: string): (r: Result<Member>)
    ensures r.Ok? ==> |r.rest| < |s|
    decreases |s|, 3
  {
    var k := ParseString(Skip(s));
    if k.Fail? then Fail else
      var t := Skip(k.rest);
      if At(t, 0) != ':' then Fail else
        var r := ParseValue(Skip(t[1..]));
        if r.Fail? then Fail else Ok(Member(k.value, r.value), r.rest)
  }

  /** The rest of an object, from its next key on. */
  function ParseMembers(s: string): (r: Result<seq<Member>>)
    ensures r.Ok? ==> |r.rest| < |s|
    decreases |s|, 4
  {
    var r := ParseMember(s);
    if r.Fail? then Fail else
      var t := Skip(r.rest);
      if At(t, 0) == ',' then
        var more := ParseMembers(t[1..]);
        if more.Fail? then Fail else Ok([r.value] + more.value, more.rest)
      else if At(t, 0) == '}' then Ok([r.value], t[1..])
      else Fail
  }

  /** The whole text: leading white space, a value, and, if asked for, nothing but white space after it. */
  function Parse(text: string, requireNullTerminated: bool): Result<Json> {
    var r := ParseValue(Skip(text));
    if r.Fail? || !requireNullTerminated then r else
      var end := Skip(r.rest);
      if At(end, 0) == '\0' then Ok(r.value, end) else Fail
  }
}
