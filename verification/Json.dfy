/** The JSON values of jsoncpp and the text that FastWriter produces for them. */
module JsonText {
  import opened Bytes

  const TWO_63: int := 0x8000_0000_0000_0000
  const TWO_64: int := 0x1_0000_0000_0000_0000

  /** An object is listed in the order of its std::map: by name, each name once. */
  datatype Json =
    | Null
    | Bool(b: bool)
    | Int(i: int)
    | UInt(u: nat)
    | Str(s: string)
    | Arr(items: seq<Json>)
    | Obj(members: seq<Member>)

  datatype Member = Member(name: string, value: Json)

  /** strcmp(a, b) < 0 */
  predicate Before(a: string, b: string)
    decreases |a|
  {
    if b == [] then false else if a == [] then true else if a[0] != b[0] then a[0] < b[0] else Before(a[1..], b[1..])
  }

  predicate Sorted(members: seq<Member>) {
    forall i, j | 0 <= i < j < |members| :: Before(members[i].name, members[j].name)
  }

  predicate NulFree(s: string) { forall i | 0 <= i < |s| :: s[i] != '\0' }

  /** What FastWriter writes faithfully: the smallest 64-bit integer cannot be negated, and C strings end at NUL. */
  predicate Writable(v: Json) {
    match v
    case Int(i) => -TWO_63 < i < TWO_63
    case UInt(u) => u < TWO_64
    case Str(s) => NulFree(s)
    case Arr(items) => forall k | 0 <= k < |items| :: Writable(items[k])
    case Obj(members) =>
      && Sorted(members)
      && forall k | 0 <= k < |members| :: NulFree(members[k].name) && Writable(members[k].value)
    case _ => true
  }

  function Digit(d: nat): char
    requires d < 10
  {
    '0' + d as char
  }

  function Digits(n: nat): (s: string)
    ensures s != []
  {
    if n < 10 then [Digit(n)] else Digits(n / 10) + [Digit(n % 10)]
  }

  function IntText(i: int): string { if i < 0 then "-" + Digits(-i) else Digits(i) }

  predicate Control(c: char) { '\0' < c <= '\U{1f}' }

  function HexDigit(d: nat): char
    requires d < 16
  {
    if d < 10 then '0' + d as char else 'A' + (d - 10) as char
  }

  function EscapeChar(c: char): string {
    match c
    case '\"' => "\\\""
    case '\\' => "\\\\"
    case '\U{8}' => "\\b"
    case '\U{c}' => "\\f"
    case '\n' => "\\n"
    case '\r' => "\\r"
    case '\t' => "\\t"
    case _ => if Control(c) then "\\u00" + [HexDigit(c as int / 16), HexDigit(c as int % 16)] else [c]
  }

  /** A C string ends at NUL. */
  function Escaped(s: string): string {
    if s == [] || s[0] == '\0' then "" else EscapeChar(s[0]) + Escaped(s[1..])
  }

  function Quoted(s: string): string { "\"" + Escaped(s) + "\"" }

  function Width(v: Json): nat {
    match v
    case Arr(items) => |items|
    case Obj(members) => |members|
    case _ => 0
  }

  function Text(v: Json): string
    decreases v, Width(v) + 1
  {
    match v
    case Null => "null"
    case Bool(b) => if b then "true" else "false"
    case Int(i) => IntText(i)
    case UInt(u) => Digits(u)
    case Str(s) => Quoted(s)
    case Arr(_) => "[" + ItemsText(v, 0) + "]"
    case Obj(_) => "{" + MembersText(v, 0) + "}"
  }

  /** The items from number k on. */
  function ItemsText(v: Json, k: nat): string
    requires v.Arr? && k <= |v.items|
    decreases v, |v.items| - k
  {
    if k == |v.items| then "" else (if k > 0 then "," else "") + Text(v.items[k]) + ItemsText(v, k + 1)
  }

  function MembersText(v: Json, k: nat): string
    requires v.Obj? && k <= |v.members|
    decreases v, |v.members| - k
  {
    if k == |v.members| then ""
    else
      (if k > 0 then "," else "") + Quoted(v.members[k].name) + ":" + Text(v.members[k].value)
      + MembersText(v, k + 1)
  }

  /** FastWriter::write */
  function Document(v: Json): string { Text(v) + "\n" }
}

/** Reader, as functions from the text that is left to a result and the text that is then left. */
module JsonReader {
  import opened Bytes
  import opened Options
  import opened JsonText

  datatype Token =
    | ObjectBegin | ObjectEnd | ArrayBegin | ArrayEnd
    | StringToken(text: string) | NumberToken(text: string)
    | TrueToken | FalseToken | NullToken
    | ArraySeparator | MemberSeparator | EndOfStream | CommentToken | ErrorToken

  datatype Read = Read(token: Token, rest: string)

  predicate Space(c: char) { c == ' ' || c == '\t' || c == '\r' || c == '\n' }

  function SkipSpaces(s: string): (r: string)
    ensures |r| <= |s| && (r != [] ==> !Space(r[0]))
  {
    if s != [] && Space(s[0]) then SkipSpaces(s[1..]) else s
  }

  /** The place of the quote that ends a string. */
  function StringEnd(s: string): (r: Option<nat>)
    ensures r.Some? ==> r.value < |s| && s[r.value] == '"'
  {
    if s == [] then None
    else if s[0] == '\\' then (if |s| == 1 then None else Shift(StringEnd(s[2..]), 2))
    else if s[0] == '"' then Some(0)
    else Shift(StringEnd(s[1..]), 1)
  }

  function Shift(r: Option<nat>, n: nat): Option<nat> { if r.None? then None else Some(r.value + n) }

  predicate NumberChar(c: char) { '0' <= c <= '9' || c == '.' || c == 'e' || c == 'E' || c == '+' || c == '-' }

  function NumberEnd(s: string): (n: nat)
    ensures n <= |s|
  {
    if s == [] || !NumberChar(s[0]) then 0 else 1 + NumberEnd(s[1..])
  }

  function Match(pattern: string, token: Token, r: string): (t: Read)
    ensures |t.rest| <= |r|
  {
    if pattern <= r then Read(token, r[|pattern|..]) else Read(ErrorToken, r)
  }

  /** The token at the beginning of a text that does not begin with a space. */
  function TokenFrom(t: string): (r: Read)
    requires t != []
    ensures |r.rest| <= |t| && (r.token.EndOfStream? || |r.rest| < |t|)
  {
    var c, r := t[0], t[1..];
    if c == '{' then Read(ObjectBegin, r)
    else if c == '}' then Read(ObjectEnd, r)
    else if c == '[' then Read(ArrayBegin, r)
    else if c == ']' then Read(ArrayEnd, r)
    else if c == '"' then
      var n := StringEnd(r);
      if n.Some? then Read(StringToken(r[..n.value]), r[n.value + 1..]) else Read(ErrorToken, [])
    else if c == '/' then Read(CommentToken, r)
    else if '0' <= c <= '9' || c == '-' then Read(NumberToken(t[..1 + NumberEnd(r)]), r[NumberEnd(r)..])
    else if c == 't' then Match("rue", TrueToken, r)
    else if c == 'f' then Match("alse", FalseToken, r)
    else if c == 'n' then Match("ull", NullToken, r)
    else if c == ',' then Read(ArraySeparator, r)
    else if c == ':' then Read(MemberSeparator, r)
    else if c == '\0' then Read(EndOfStream, r)
    else Read(ErrorToken, r)
  }

  function ReadToken(s: string): (t: Read)
    ensures |t.rest| <= |s| && (t.token.EndOfStream? || |t.rest| < |s|)
  {
    var t := SkipSpaces(s);
    if t == [] then Read(EndOfStream, []) else TokenFrom(t)
  }

  // ---------------------------------------------------------------------------------------
  // Numbers

  function Threshold(negative: bool): nat { if negative then TWO_63 / 10 else (TWO_64 - 1) / 10 }
  function LastDigit(negative: bool): nat { if negative then TWO_63 % 10 else (TWO_64 - 1) % 10 }

  predicate LooksReal(text: string) {
    exists i | 0 <= i < |text| :: text[i] in ".eE+" || (text[i] == '-' && i > 0)
  }

  /** The digit loop of decodeNumber; none where it gives up or turns to a real number. */
  function ParseDigits(negative: bool, ds: string, value: nat): Option<nat>
    decreases |ds|
  {
    if ds == [] then Some(value)
    else if ds[0] < '0' || ds[0] > '9' then None
    else
      var digit := ds[0] as int - '0' as int;
      if value >= Threshold(negative) && (|ds| > 1 || digit > LastDigit(negative)) then None
      else ParseDigits(negative, ds[1..], (value * 10 + digit) % TWO_64)
  }

  /** The cast from an unsigned to a signed 64-bit integer. */
  function Signed(x: int): int { (x + TWO_63) % TWO_64 - TWO_63 }

  function DecodeNumber(text: string): Option<Json>
    requires text != []
  {
    if LooksReal(text) then None
    else
      var negative := text[0] == '-';
      var value := ParseDigits(negative, if negative then text[1..] else text, 0);
      if value.None? then None
      else if negative then Some(Int(Signed(-Signed(value.value))))
      else if value.value < TWO_31 then Some(Int(value.value))
      else Some(UInt(value.value))
  }

  // ---------------------------------------------------------------------------------------
  // Strings

  function HexValue(c: char): int {
    if '0' <= c <= '9' then c as int - '0' as int
    else if 'a' <= c <= 'f' then c as int - 'a' as int + 10
    else if 'A' <= c <= 'F' then c as int - 'A' as int + 10
    else -1
  }

  /** decodeUnicodeEscapeSequence: four hexadecimal digits. */
  function HexQuad(t: string): (r: Option<nat>)
    ensures r.Some? ==> |t| >= 4 && r.value < 0x1_0000
  {
    if |t| < 4 || HexValue(t[0]) < 0 || HexValue(t[1]) < 0 || HexValue(t[2]) < 0 || HexValue(t[3]) < 0 then None
    else Some(((HexValue(t[0]) * 16 + HexValue(t[1])) * 16 + HexValue(t[2])) * 16 + HexValue(t[3]))
  }

  datatype CodePoint = CodePoint(value: nat, rest: string)

  /** decodeUnicodeCodePoint, after the u: a surrogate must be followed by a second one. */
  function UnicodeEscape(t: string): (r: Option<CodePoint>)
    ensures r.Some? ==> |r.value.rest| < |t| && r.value.value < 0x11_0000
  {
    var first := HexQuad(t);
    if first.None? then None
    else if first.value < 0xD800 || first.value > 0xDBFF then Some(CodePoint(first.value, t[4..]))
    else
      var u := t[4..];
      if |u| < 6 || u[0] != '\\' || u[1] != 'u' then None
      else
        var second := HexQuad(u[2..]);
        if second.None? then None
        else Some(CodePoint(0x1_0000 + first.value % 0x400 * 0x400 + second.value % 0x400, u[6..]))
  }

  function Utf8(cp: nat): string
    requires cp < 0x11_0000
  {
    if cp <= 0x7f then [cp as char]
    else if cp <= 0x7FF then [(0xC0 + cp / 64) as char, (0x80 + cp % 64) as char]
    else if cp <= 0xFFFF then [(0xE0 + cp / 4096) as char, (0x80 + cp / 64 % 64) as char, (0x80 + cp % 64) as char]
    else
      [(0xF0 + cp / 262144) as char, (0x80 + cp / 4096 % 64) as char, (0x80 + cp / 64 % 64) as char,
       (0x80 + cp % 64) as char]
  }

  function Prefixed(p: string, r: Option<string>): Option<string> { if r.None? then None else Some(p + r.value) }

  /** The character of a one-letter escape. */
  function Unescape(c: char): Option<char> {
    match c
    case '\"' => Some('\"')
    case '/' => Some('/')
    case '\\' => Some('\\')
    case 'b' => Some('\U{8}')
    case 'f' => Some('\U{c}')
    case 'n' => Some('\n')
    case 'r' => Some('\r')
    case 't' => Some('\t')
    case _ => None
  }

  function DecodeString(t: string): Option<string>
    decreases |t|
  {
    if t == [] || t[0] == '"' then Some("")
    else if t[0] != '\\' then Prefixed([t[0]], DecodeString(t[1..]))
    else if |t| == 1 then None
    else if t[1] == 'u' then
      var u := UnicodeEscape(t[2..]);
      if u.None? then None else Prefixed(Utf8(u.value.value), DecodeString(u.value.rest))
    else
      var c := Unescape(t[1]);
      if c.None? then None else Prefixed([c.value], DecodeString(t[2..]))
  }

  // ---------------------------------------------------------------------------------------
  // Values

  datatype Parsed = Got(value: Json, rest: string) | Failed

  /** Assigning to a member: it takes its place in the order of names, or replaces the one with its name. */
  function Put(members: seq<Member>, m: Member): seq<Member> {
    if members == [] then [m]
    else if members[0].name == m.name then [m] + members[1..]
    else if Before(m.name, members[0].name) then [m] + members
    else [members[0]] + Put(members[1..], m)
  }

  function ReadValue(s: string): (r: Parsed)
    ensures r.Got? ==> |r.rest| < |s|
    decreases |s|, 0
  {
    var t := ReadToken(s);
    match t.token
    case ObjectBegin => ReadMembers(t.rest, [], "")
    case ArrayBegin =>
      var u := SkipSpaces(t.rest);
      if u != [] && u[0] == ']' then Got(Arr([]), u[1..]) else ReadItems(t.rest, [])
    case NumberToken(text) =>
      if text == [] then Failed
      else
        var n := DecodeNumber(text);
        if n.None? then Failed else Got(n.value, t.rest)
    case StringToken(text) =>
      var d := DecodeString(text);
      if d.None? then Failed else Got(Str(d.value), t.rest)
    case TrueToken => Got(Bool(true), t.rest)
    case FalseToken => Got(Bool(false), t.rest)
    case NullToken => Got(Null, t.rest)
    case _ => Failed
  }

  function ReadItems(s: string, items: seq<Json>): (r: Parsed)
    ensures r.Got? ==> |r.rest| < |s|
    decreases |s|, 1
  {
    var v := ReadValue(s);
    if v.Failed? then Failed
    else
      var t := ReadToken(v.rest);
      match t.token
      case ArraySeparator => ReadItems(t.rest, items + [v.value])
      case ArrayEnd => Got(Arr(items + [v.value]), t.rest)
      case _ => Failed
  }

  /** name is the name of the previous member: a closing brace after a comma is accepted when it is empty. */
  function ReadMembers(s: string, members: seq<Member>, name: string): (r: Parsed)
    ensures r.Got? ==> |r.rest| < |s|
    decreases |s|, 1
  {
    var t := ReadToken(s);
    if t.token.ObjectEnd? && name == "" then Got(Obj(members), t.rest)
    else if !t.token.StringToken? then Failed
    else
      var next := DecodeString(t.token.text);
      var colon := ReadToken(t.rest);
      if next.None? || !colon.token.MemberSeparator? then Failed
      else
        var v := ReadValue(colon.rest);
        if v.Failed? then Failed
        else
          var now := Put(members, Member(next.value, v.value));
          var comma := ReadToken(v.rest);
          match comma.token
          case ObjectEnd => Got(Obj(now), comma.rest)
          case ArraySeparator => ReadMembers(comma.rest, now, next.value)
          case _ => Failed
  }

  /** Reader::parse: what follows the value is ignored. */
  function Parse(document: string): Option<Json> {
    var r := ReadValue(document);
    if r.Failed? then None else Some(r.value)
  }
}
