/** JSON trees, and the text that the printers render for them. A char stands for one byte. */
module JsonText {

  datatype Json =
    | Null
    | False
    | True
    | Number(value: real)
    | String(text: string)
    | Array(items: seq<Json>)
    | Object(members: seq<Member>)

  datatype Member = Member(key: string, value: Json)

  const INT_MAX := 0x7fff_ffff
  const INT_MIN := -0x8000_0000

  predicate NulFree(s: string) {
    forall i :: 0 <= i < |s| ==> s[i] != '\0'
  }

  /** The trees the printers are modelled for: numbers are integers of C type int, strings are C strings. */
  predicate Printable(j: Json) {
    match j
    case Number(value) => value == value.Floor as real && INT_MIN <= value.Floor <= INT_MAX
    case String(text) => NulFree(text)
    case Array(items) => forall i :: 0 <= i < |items| ==> Printable(items[i])
    case Object(members) => forall i :: 0 <= i < |members| ==> NulFree(members[i].key) && Printable(members[i].value)
    case _ => true
  }

  // ---------- numbers ----------

  function TenTo(n: nat): (r: nat)
    ensures r > 0
  {
    if n == 0 then 1 else 10 * TenTo(n - 1)
  }

  function DigitChar(n: nat): char
    requires n < 16
  {
    "0123456789abcdef"[n]
  }

  function Digits(n: nat): string {
    if n < 10 then [DigitChar(n)] else Digits(n / 10) + [DigitChar(n % 10)]
  }

  /** printf %d */
  function Decimal(n: int): string {
    if n < 0 then "-" + Digits(-n) else Digits(n)
  }

  // ---------- strings ----------

  const BACKSPACE := '\U{08}'
  const FORM_FEED := '\U{0C}'

  /** One character of a string literal. */
  function Escape(c: char): string {
    if c == '\\' then "\\\\"
    else if c == '\"' then "\\\""
    else if c == BACKSPACE then "\\b"
    else if c == FORM_FEED then "\\f"
    else if c == '\n' then "\\n"
    else if c == '\r' then "\\r"
    else if c == '\t' then "\\t"
    else if c as int < 32 then "\\u00" + [DigitChar(c as int / 16), DigitChar(c as int % 16)]
    else [c]
  }

  function EscapeAll(s: string): string {
    if s == [] then [] else Escape(s[0]) + EscapeAll(s[1..])
  }

  function Quote(s: string): string {
    "\"" + EscapeAll(s) + "\""
  }

  // ---------- values ----------

  function Tabs(n: nat): string {
    seq(n, _ => '\t')
  }

  /** `s` when formatting is on. */
  function If(fmt: bool, s: string): string {
    if fmt then s else []
  }

  function Text(j: Json, depth: nat, fmt: bool): string
    decreases j, 0
  {
    match j
    case Null => "null"
    case False => "false"
    case True => "true"
    case Number(value) => Decimal(value.Floor)
    case String(text) => Quote(text)
    case Array(items) => "[" + ItemsText(items, depth + 1, fmt) + "]"
    case Object(members) =>
      "{" + If(fmt, "\n") + MembersText(members, depth + 1, fmt) + If(fmt, Tabs(depth)) + "}"
  }

  /** The elements of an array, separated. */
  function ItemsText(items: seq<Json>, depth: nat, fmt: bool): string
    decreases items, 1
  {
    if items == [] then []
    else if |items| == 1 then Text(items[0], depth, fmt)
    else Text(items[0], depth, fmt) + "," + If(fmt, " ") + ItemsText(items[1..], depth, fmt)
  }

  function MemberText(m: Member, depth: nat, fmt: bool): string
    decreases m, 1
  {
    If(fmt, Tabs(depth)) + Quote(m.key) + ":" + If(fmt, "\t") + Text(m.value, depth, fmt)
  }

  /** The members of an object, each on its own line when formatting is on. */
  function MembersText(members: seq<Member>, depth: nat, fmt: bool): string
    decreases members, 1
  {
    if members == [] then []
    else if |members| == 1 then MemberText(members[0], depth, fmt) + If(fmt, "\n")
    else MemberText(members[0], depth, fmt) + "," + If(fmt, "\n") + MembersText(members[1..], depth, fmt)
  }
}
