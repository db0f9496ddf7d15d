/** FastWriter and Reader as programs: the writer appends to a document, the reader moves a cursor. */
module JsonPrograms {
  import opened Bytes
  import opened Options
  import opened JsonText
  import opened JsonReader
  import opened JsonRoundTrip

  /** uintToString fills a buffer of 25 characters from its end; the result is what lies behind the cursor. */
  method UintToString(value: nat) returns (text: string)
    requires value < TWO_64
    ensures text == Digits(value)
  {
    TwentyDigits(value);
    hide Digit;
    var buffer := new char[25](_ => '\0');
    var current := 23;
    var left: nat := value / 10;
    buffer[current] := Digit(value % 10);
    assert buffer[current..24] == [Digit(value % 10)];
    while left != 0
      invariant 4 <= current < 24 && (left > 0 ==> |Digits(left)| <= current - 4)
      invariant (if left == 0 then "" else Digits(left)) + buffer[current..24] == Digits(value)
      decreases left
    {
      ghost var before, digit := buffer[current..24], Digit(left % 10);
      current := current - 1;
      buffer[current] := Digit(left % 10);
      assert buffer[current..24] == [digit] + before;
      left := left / 10;
    }
    text := buffer[current..24];
  }

  function PowerOfTen(k: nat): nat { if k == 0 then 1 else 10 * PowerOfTen(k - 1) }

  lemma {:induction false} DigitsLength(n: nat, k: nat)
    requires k >= 1 && n < PowerOfTen(k)
    ensures |Digits(n)| <= k
  {
    if n >= 10 { DigitsLength(n / 10, k - 1); }
  }

  lemma TwentyDigits(n: nat)
    requires n < TWO_64
    ensures |Digits(n)| <= 20
  {
    assert PowerOfTen(2) == 100 && PowerOfTen(4) == 10_000 && PowerOfTen(6) == 1_000_000
        && PowerOfTen(8) == 100_000_000;
    assert PowerOfTen(10) == 10_000_000_000 && PowerOfTen(12) == 1_000_000_000_000
        && PowerOfTen(14) == 100_000_000_000_000;
    assert PowerOfTen(16) == 10_000_000_000_000_000 && PowerOfTen(18) == 1_000_000_000_000_000_000;
    assert PowerOfTen(20) == 100_000_000_000_000_000_000;
    DigitsLength(n, 20);
  }

  /** valueToString of a signed integer. */
  method IntToString(value: int) returns (text: string)
    requires -TWO_63 < value < TWO_63
    ensures text == IntText(value)
  {
    text := UintToString(if value < 0 then -value else value);
    if value < 0 { text := "-" + text; }
  }

  predicate NeedsEscape(c: char) { Control(c) || c == '"' || c == '\\' }

  /** valueToQuotedString: a string without special characters is copied as it is. */
  method ValueToQuotedString(s: string) returns (text: string)
    requires NulFree(s)
    ensures text == Quoted(s)
  {
    hide EscapeChar, Escaped;
    if forall i | 0 <= i < |s| :: !NeedsEscape(s[i]) {
      EscapesNothing(s);
      return "\"" + s + "\"";
    }
    text := "\"";
    var i := 0;
    assert s[0..] == s;
    while i < |s|
      invariant i <= |s| && text + Escaped(s[i..]) == "\"" + Escaped(s)
    {
      EscapedStep(s, i);
      text := text + EscapeChar(s[i]);
      i := i + 1;
    }
    EscapesNothing(s[i..]);
    text := text + "\"";
  }

  lemma EscapedStep(s: string, i: nat)
    requires NulFree(s) && i < |s|
    ensures Escaped(s[i..]) == EscapeChar(s[i]) + Escaped(s[i + 1..])
  {
    assert s[i..][1..] == s[i + 1..];
  }

  lemma {:induction false} EscapesNothing(s: string)
    requires NulFree(s) && forall i | 0 <= i < |s| :: !NeedsEscape(s[i])
    ensures Escaped(s) == s
  {
    if s != [] { EscapesNothing(s[1..]); }
  }

  class FastWriter {
    var document: string

    constructor ()
      ensures document == ""
    {
      document := "";
    }

    method Write(root: Json) returns (text: string)
      requires Writable(root)
      modifies this
      ensures text == document == Document(root)
    {
      document := "";
      WriteValue(root);
      document := document + "\n";
      text := document;
    }

    method WriteValue(v: Json)
      requires Writable(v)
      modifies this
      ensures document == old(document) + Text(v)
      decreases v
    {
      hide Digits, IntText, Quoted;
      match v {
        case Null => document := document + "null";
        case Bool(b) => document := document + if b then "true" else "false";
        case Int(i) => var t := IntToString(i); document := document + t;
        case UInt(u) => var t := UintToString(u); document := document + t;
        case Str(s) => var t := ValueToQuotedString(s); document := document + t;
        case Arr(items) => WriteArray(v);
        case Obj(members) => WriteObject(v);
      }
    }

    method WriteArray(v: Json)
      requires Writable(v) && v.Arr?
      modifies this
      ensures document == old(document) + Text(v)
      decreases v, 0
    {
      WholeArray(v);
      hide ItemsText, Text;
      ghost var all := document + "[" + ItemsText(v, 0);
      document := document + "[";
      for index := 0 to |v.items|
        invariant document + ItemsText(v, index) == all
      {
        NextItem(v, index);
        ghost var before, comma := document, if index > 0 then "," else "";
        if index > 0 { document := document + ","; }
        assert document == before + comma;
        WriteValue(v.items[index]);
        Regroup(before, comma, Text(v.items[index]), ItemsText(v, index + 1));
      }
      assert document == all;
      document := document + "]";
      Regroup(old(document), "[", ItemsText(v, 0), "]");
    }

    method WriteObject(v: Json)
      requires Writable(v) && v.Obj?
      modifies this
      ensures document == old(document) + Text(v)
      decreases v, 0
    {
      WholeObject(v);
      hide Quoted, MembersText, Text;
      ghost var all := document + "{" + MembersText(v, 0);
      document := document + "{";
      for index := 0 to |v.members|
        invariant document + MembersText(v, index) == all
      {
        NextMember(v, index);
        ghost var before, comma := document, if index > 0 then "," else "";
        if index > 0 { document := document + ","; }
        assert document == before + comma;
        ghost var member := Text(v.members[index].value) + MembersText(v, index + 1);
        Regroup(before, comma, Quoted(v.members[index].name), ":" + member);
        Regroup(before + comma + Quoted(v.members[index].name), ":", Text(v.members[index].value),
            MembersText(v, index + 1));
        var name := ValueToQuotedString(v.members[index].name);
        document := document + name;
        document := document + ":";
        WriteValue(v.members[index].value);
      }
      assert document == all;
      document := document + "}";
      Regroup(old(document), "{", MembersText(v, 0), "}");
    }
  }

  lemma Regroup(a: string, b: string, c: string, d: string)
    ensures a + (b + (c + d)) == a + b + c + d
  {
  }

  lemma WholeArray(v: Json)
    requires v.Arr?
    ensures Text(v) == "[" + ItemsText(v, 0) + "]" && ItemsText(v, |v.items|) == ""
  {
  }

  lemma NextItem(v: Json, k: nat)
    requires v.Arr? && k < |v.items|
    ensures ItemsText(v, k) == (if k > 0 then "," else "") + (Text(v.items[k]) + ItemsText(v, k + 1))
  {
    hide Text;
  }

  lemma WholeObject(v: Json)
    requires v.Obj?
    ensures Text(v) == "{" + MembersText(v, 0) + "}" && MembersText(v, |v.members|) == ""
  {
  }

  lemma NextMember(v: Json, k: nat)
    requires v.Obj? && k < |v.members|
    ensures var tail := ":" + (Text(v.members[k].value) + MembersText(v, k + 1));
            MembersText(v, k) == (if k > 0 then "," else "") + (Quoted(v.members[k].name) + tail)
  {
    hide Text, Quoted;
  }

  /** The reader: end is the length of the text and current the place of the cursor. */
  class Reader {
    const text: string
    var current: nat

    ghost predicate Valid()
      reads this
    {
      current <= |text|
    }

    ghost function Rest(): string
      requires Valid()
      reads this
    {
      text[current..]
    }

    constructor (text: string)
      ensures Valid() && this.text == text && current == 0 && Rest() == text
    {
      this.text := text;
      current := 0;
    }

    method SkipSpaces()
      requires Valid()
      modifies this
      ensures Valid() && Rest() == JsonReader.SkipSpaces(old(Rest()))
      ensures current >= old(current)
    {
      while current < |text| && Space(text[current])
        invariant old(current) <= current <= |text|
        invariant JsonReader.SkipSpaces(Rest()) == JsonReader.SkipSpaces(old(Rest()))
        decreases |text| - current
      {
        assert Rest()[1..] == text[current + 1..];
        current := current + 1;
      }
      if current < |text| { assert Rest()[0] == text[current]; }
    }

    method ReadNumber()
      requires Valid()
      modifies this
      ensures Valid() && current == old(current) + NumberEnd(old(Rest()))
    {
      while current < |text| && NumberChar(text[current])
        invariant Valid() && current + NumberEnd(Rest()) == old(current) + NumberEnd(old(Rest()))
        decreases |text| - current
      {
        assert Rest()[1..] == text[current + 1..];
        current := current + 1;
      }
      if current < |text| { assert Rest()[0] == text[current]; }
    }

    method ReadString() returns (ok: bool)
      requires Valid()
      modifies this
      ensures Valid() && (ok <==> StringEnd(old(Rest())).Some?)
      ensures current == if ok then old(current) + StringEnd(old(Rest())).value + 1 else |text|
    {
      hide StringEnd, EndAt;
      ghost var start := current;
      EndAtIs(text, start);
      ok := false;
      while current < |text| && !ok
        invariant Valid() && current >= start
        invariant EndAt(text, start) == if ok then Some(current - 1) else EndAt(text, current)
        invariant ok ==> current > start
        decreases |text| - current
      {
        EndStep(text, current);
        var c := text[current];
        current := current + 1;
        if c == '\\' {
          if current < |text| { current := current + 1; }
        } else if c == '"' {
          ok := true;
        }
      }
      EndAtIs(text, current);
    }

    method Match(pattern: string) returns (ok: bool)
      requires Valid()
      modifies this
      ensures Valid() && (ok <==> pattern <= old(Rest()))
      ensures current == if ok then old(current) + |pattern| else old(current)
    {
      if |text| - current < |pattern| { return false; }
      var index := |pattern|;
      while index > 0
        invariant 0 <= index <= |pattern| && forall k | index <= k < |pattern| :: text[current + k] == pattern[k]
      {
        index := index - 1;
        if text[current + index] != pattern[index] {
          assert Rest()[index] == text[current + index];
          return false;
        }
      }
      assert Rest()[..|pattern|] == pattern;
      current := current + |pattern|;
      ok := true;
    }

    method ReadToken() returns (token: Token)
      requires Valid()
      modifies this
      ensures Valid() && Read(token, Rest()) == JsonReader.ReadToken(old(Rest()))
    {
      hide TokenFrom;
      SkipSpaces();
      if current == |text| { token := EndOfStream; } else { token := TokenHere(); }
    }

    method TokenHere() returns (token: Token)
      requires Valid() && current < |text|
      modifies this
      ensures Valid() && Read(token, Rest()) == TokenFrom(old(Rest()))
    {
      ghost var t := Rest();
      var c := text[current];
      assert t[0] == c && t[1..] == text[current + 1..];
      hide TokenFrom;
      if c == '"' {
        token := StringHere();
      } else if '0' <= c <= '9' || c == '-' {
        token := NumberHere();
      } else if c == 't' || c == 'f' || c == 'n' {
        token := WordHere();
      } else {
        MarkIs(t);
        token := Mark(c);
        current := current + 1;
      }
    }

    method StringHere() returns (token: Token)
      requires Valid() && current < |text| && text[current] == '"'
      modifies this
      ensures Valid() && Read(token, Rest()) == TokenFrom(old(Rest()))
    {
      hide StringEnd;
      ghost var t := Rest();
      StringIs(t);
      hide TokenFrom;
      var start := current + 1;
      current := start;
      ghost var r := Rest();
      assert t[1..] == r;
      var ok := ReadString();
      token := if ok then StringToken(text[start..current - 1]) else ErrorToken;
      if ok { assert r[..current - 1 - start] == text[start..current - 1] && r[current - start..] == Rest(); }
    }

    method NumberHere() returns (token: Token)
      requires Valid() && current < |text| && ('0' <= text[current] <= '9' || text[current] == '-')
      modifies this
      ensures Valid() && Read(token, Rest()) == TokenFrom(old(Rest()))
    {
      hide NumberEnd;
      ghost var t := Rest();
      NumberIs(t);
      hide TokenFrom;
      var start := current;
      current := current + 1;
      assert t[1..] == Rest();
      ReadNumber();
      token := NumberToken(text[start..current]);
      assert t[..current - start] == text[start..current] && t[current - start..] == Rest();
    }

    method WordHere() returns (token: Token)
      requires Valid() && current < |text| && (text[current] == 't' || text[current] == 'f' || text[current] == 'n')
      modifies this
      ensures Valid() && Read(token, Rest()) == TokenFrom(old(Rest()))
    {
      var c := text[current];
      WordIs(Rest());
      assert Rest()[1..] == text[current + 1..];
      hide TokenFrom;
      current := current + 1;
      var word, whole := if c == 't' then "rue" else if c == 'f' then "alse" else "ull",
        if c == 't' then TrueToken else if c == 'f' then FalseToken else NullToken;
      var ok := Match(word);
      token := if ok then whole else ErrorToken;
    }

    /** readValue; after a failure the cursor may be anywhere, as nothing else is read. */
    method ReadValue() returns (v: Option<Json>)
      requires Valid()
      modifies this
      ensures Valid() && current >= old(current)
      ensures var r := JsonReader.ReadValue(old(Rest()));
              if r.Got? then v == Some(r.value) && Rest() == r.rest else v == None
      decreases |text| - current, 1
    {
      ghost var r := JsonReader.ReadToken(Rest());
      hide JsonReader.ReadToken, ReadItems, ReadMembers, JsonReader.SkipSpaces, JsonReader.DecodeNumber,
          JsonReader.DecodeString;
      var token := ReadToken();
      v := None;
      match token {
        case ObjectBegin => v := ReadObject();
        case ArrayBegin => v := ReadArray();
        case NumberToken(t) => if t != [] { v := DecodeNumberToken(t); }
        case StringToken(t) =>
          var d := DecodeStringToken(t);
          v := if d.Some? then Some(Str(d.value)) else None;
        case TrueToken => v := Some(Bool(true));
        case FalseToken => v := Some(Bool(false));
        case NullToken => v := Some(Null);
        case _ =>
      }
    }

    method ReadArray() returns (v: Option<Json>)
      requires Valid()
      modifies this
      ensures Valid() && current >= old(current)
      ensures var u := JsonReader.SkipSpaces(old(Rest()));
              var r := if u != [] && u[0] == ']' then Got(Arr([]), u[1..]) else ReadItems(old(Rest()), []);
              if r.Got? then v == Some(r.value) && Rest() == r.rest else v == None
      decreases |text| - current, 2
    {
      hide JsonReader.ReadToken, JsonReader.ReadValue, JsonReader.SkipSpaces;
      ghost var first := Rest();
      SkipSpaces();
      if current < |text| && text[current] == ']' {
        assert Rest()[1..] == text[current + 1..] && Rest()[0] == text[current];
        current := current + 1;
        return Some(Arr([]));
      }
      ReadItemsSkips(first);
      assert current < |text| ==> Rest()[0] == text[current];
      ghost var wanted := ReadItems(Rest(), []);
      var items: seq<Json> := [];
      var more := true;
      while more
        invariant Valid() && current >= old(current)
        invariant more ==> ReadItems(Rest(), items) == wanted
        invariant !more ==> wanted == Got(Arr(items), Rest())
        decreases more, |text| - current
      {
        ghost var at := current;
        var item := ReadValue();
        if item.None? { return None; }
        var token := ReadToken();
        assert current > at;
        items := items + [item.value];
        if token.ArrayEnd? { more := false; } else if !token.ArraySeparator? { return None; }
      }
      v := Some(Arr(items));
    }

    method ReadObject() returns (v: Option<Json>)
      requires Valid()
      modifies this
      ensures Valid() && current >= old(current)
      ensures var r := ReadMembers(old(Rest()), [], "");
              if r.Got? then v == Some(r.value) && Rest() == r.rest else v == None
      decreases |text| - current, 2
    {
      hide JsonReader.ReadToken, JsonReader.ReadValue, JsonReader.DecodeString, Put;
      ghost var wanted := ReadMembers(Rest(), [], "");
      var members: seq<Member>, name := [], "";
      while true
        invariant Valid() && current >= old(current)
        invariant ReadMembers(Rest(), members, name) == wanted
        decreases |text| - current
      {
        var token := ReadToken();
        if token.ObjectEnd? && name == "" { return Some(Obj(members)); }
        if !token.StringToken? { return None; }
        var next := DecodeStringToken(token.text);
        if next.None? { return None; }
        name := next.value;
        var colon := ReadToken();
        if !colon.MemberSeparator? { return None; }
        var value := ReadValue();
        if value.None? { return None; }
        members := Put(members, Member(name, value.value));
        var comma := ReadToken();
        if comma.ObjectEnd? { return Some(Obj(members)); }
        if !comma.ArraySeparator? { return None; }
      }
    }
  }

  /** Spaces before the first item do not matter. */
  lemma ReadItemsSkips(s: string)
    ensures ReadItems(JsonReader.SkipSpaces(s), []) == ReadItems(s, [])
  {
    SkipTwice(s);
    assert JsonReader.ReadToken(JsonReader.SkipSpaces(s)) == JsonReader.ReadToken(s);
    assert JsonReader.ReadValue(JsonReader.SkipSpaces(s)) == JsonReader.ReadValue(s);
  }

  lemma SkipTwice(s: string)
    ensures JsonReader.SkipSpaces(JsonReader.SkipSpaces(s)) == JsonReader.SkipSpaces(s)
  {
  }

  /** decodeNumber: the first loop looks for signs of a real number, the second adds up the digits. */
  method DecodeNumberToken(t: string) returns (v: Option<Json>)
    requires t != []
    ensures v == JsonReader.DecodeNumber(t)
  {
    var looksReal := false;
    for i := 0 to |t|
      invariant looksReal <==> exists k | 0 <= k < i :: t[k] in ".eE+" || (t[k] == '-' && k > 0)
    {
      looksReal := looksReal || t[i] in ".eE+" || (t[i] == '-' && i != 0);
    }
    if looksReal { return None; }
    assert !LooksReal(t);
    hide LooksReal;
    var negative := t[0] == '-';
    var ds := if negative then t[1..] else t;
    var value, i := 0, 0;
    assert ds[0..] == ds;
    while i < |ds|
      invariant 0 <= i <= |ds| && value >= 0
      invariant ParseDigits(negative, ds[i..], value) == ParseDigits(negative, ds, 0)
    {
      assert ds[i..][1..] == ds[i + 1..];
      var c := ds[i];
      i := i + 1;
      if c < '0' || c > '9' { return None; }
      var digit := c as int - '0' as int;
      if value >= Threshold(negative) && (i != |ds| || digit > LastDigit(negative)) { return None; }
      value := (value * 10 + digit) % TWO_64;
    }
    if negative { v := Some(Int(Signed(-Signed(value)))); }
    else if value < TWO_31 { v := Some(Int(value)); }
    else { v := Some(UInt(value)); }
  }

  /** decodeString: the loop over the token. */
  method DecodeStringToken(t: string) returns (r: Option<string>)
    ensures r == JsonReader.DecodeString(t)
  {
    hide JsonReader.DecodeString, UnicodeEscape, Utf8;
    var decoded, i := "", 0;
    assert t[0..] == t;
    PrefixedNothing(JsonReader.DecodeString(t));
    while i < |t|
      invariant i <= |t| && Prefixed(decoded, JsonReader.DecodeString(t[i..])) == JsonReader.DecodeString(t)
      decreases |t| - i
    {
      DecodeStep(t, i, decoded);
      var c := t[i];
      if c == '"' { return Some(decoded); }
      if c != '\\' {
        decoded, i := decoded + [c], i + 1;
      } else if i + 1 == |t| {
        return None;
      } else if t[i + 1] == 'u' {
        var u := UnicodeEscape(t[i + 2..]);
        if u.None? { return None; }
        UnicodeRest(t, i + 2);
        decoded, i := decoded + Utf8(u.value.value), |t| - |u.value.rest|;
      } else {
        var e := Unescape(t[i + 1]);
        if e.None? { return None; }
        decoded, i := decoded + [e.value], i + 2;
      }
    }
    DecodeEnd(t[i..], decoded);
    r := Some(decoded);
  }

  lemma DecodeEnd(t: string, decoded: string)
    requires t == ""
    ensures Prefixed(decoded, JsonReader.DecodeString(t)) == Some(decoded)
  {
    assert decoded + "" == decoded;
  }

  lemma PrefixedNothing(r: Option<string>)
    ensures Prefixed("", r) == r
  {
    if r.Some? { assert "" + r.value == r.value; }
  }

  lemma PrefixedTwice(a: string, b: string, r: Option<string>)
    ensures Prefixed(a, Prefixed(b, r)) == Prefixed(a + b, r)
  {
    if r.Some? { assert a + (b + r.value) == a + b + r.value; }
  }

  /** What is left after a unicode escape is the end of the text. */
  lemma UnicodeRest(t: string, i: nat)
    requires i <= |t| && UnicodeEscape(t[i..]).Some?
    ensures var rest := UnicodeEscape(t[i..]).value.rest; |rest| <= |t| - i && t[|t| - |rest|..] == rest
  {
    var u := t[i..];
    if |u| >= 4 { assert u[4..] == t[i + 4..]; }
    if |u| >= 10 { assert u[4..][6..] == t[i + 10..]; }
  }

  lemma DecodeStep(t: string, i: nat, decoded: string)
    requires i < |t|
    ensures Prefixed(decoded, JsonReader.DecodeString(t[i..])) ==
              if t[i] == '"' then Some(decoded)
              else if t[i] != '\\' then Prefixed(decoded + [t[i]], JsonReader.DecodeString(t[i + 1..]))
              else if i + 1 == |t| then None
              else if t[i + 1] == 'u' then
                var u := UnicodeEscape(t[i + 2..]);
                if u.None? then None else Prefixed(decoded + Utf8(u.value.value), JsonReader.DecodeString(u.value.rest))
              else
                var c := Unescape(t[i + 1]);
                if c.None? then None else Prefixed(decoded + [c.value], JsonReader.DecodeString(t[i + 2..]))
  {
    hide UnicodeEscape, Utf8;
    var s := t[i..];
    assert s[1..] == t[i + 1..];
    if t[i] == '"' {
      assert decoded + "" == decoded;
    } else if t[i] != '\\' {
      PrefixedTwice(decoded, [t[i]], JsonReader.DecodeString(t[i + 1..]));
    } else if i + 1 < |t| {
      assert s[2..] == t[i + 2..] && s[1] == t[i + 1];
      if t[i + 1] == 'u' {
        var u := UnicodeEscape(t[i + 2..]);
        if u.Some? { PrefixedTwice(decoded, Utf8(u.value.value), JsonReader.DecodeString(u.value.rest)); }
      } else {
        var c := Unescape(t[i + 1]);
        if c.Some? { PrefixedTwice(decoded, [c.value], JsonReader.DecodeString(t[i + 2..])); }
      }
    }
  }

  /** The token of a single character. */
  function Mark(c: char): Token {
    match c
    case '{' => ObjectBegin
    case '}' => ObjectEnd
    case '[' => ArrayBegin
    case ']' => ArrayEnd
    case ',' => ArraySeparator
    case ':' => MemberSeparator
    case '/' => CommentToken
    case '\0' => EndOfStream
    case _ => ErrorToken
  }

  lemma MarkIs(t: string)
    requires t != [] && t[0] != '"' && t[0] != '-' && t[0] != 't' && t[0] != 'f' && t[0] != 'n' && !('0' <= t[0] <= '9')
    ensures TokenFrom(t) == Read(Mark(t[0]), t[1..])
  {
  }

  lemma StringIs(t: string)
    requires t != [] && t[0] == '"'
    ensures var r := t[1..];
            var n := StringEnd(r);
            TokenFrom(t) == if n.Some? then Read(StringToken(r[..n.value]), r[n.value + 1..]) else Read(ErrorToken, [])
  {
  }

  lemma NumberIs(t: string)
    requires t != [] && ('0' <= t[0] <= '9' || t[0] == '-')
    ensures var n := 1 + NumberEnd(t[1..]); TokenFrom(t) == Read(NumberToken(t[..n]), t[n..])
  {
  }

  lemma WordIs(t: string)
    requires t != []
    ensures t[0] == 't' ==> TokenFrom(t) == JsonReader.Match("rue", TrueToken, t[1..])
    ensures t[0] == 'f' ==> TokenFrom(t) == JsonReader.Match("alse", FalseToken, t[1..])
    ensures t[0] == 'n' ==> TokenFrom(t) == JsonReader.Match("ull", NullToken, t[1..])
  {
  }

  /** The place in the whole text of the quote that ends a string beginning at i. */
  ghost function EndAt(text: string, i: nat): Option<nat>
    requires i <= |text|
  {
    Shift(StringEnd(text[i..]), i)
  }

  lemma EndAtIs(text: string, i: nat)
    requires i <= |text|
    ensures var e := EndAt(text, i); StringEnd(text[i..]) == if e.Some? && e.value >= i then Some(e.value - i) else None
    ensures i == |text| ==> EndAt(text, i) == None
  {
  }

  lemma EndStep(text: string, i: nat)
    requires i < |text|
    ensures EndAt(text, i) ==
              if text[i] == '\\' then (if i + 1 == |text| then None else EndAt(text, i + 2))
              else if text[i] == '"' then Some(i)
              else EndAt(text, i + 1)
    ensures i + 1 == |text| ==> EndAt(text, i + 1) == None
  {
    assert text[i..][1..] == text[i + 1..];
    if i + 2 <= |text| { assert text[i..][2..] == text[i + 2..]; }
  }

  /** Writing a value and reading it back, with the programs. */
  method WriteAndRead(root: Json) returns (v: Option<Json>)
    requires Writable(root)
    ensures v == Some(Retagged(root))
  {
    hide JsonReader.ReadValue, Text;
    var writer := new FastWriter();
    var text := writer.Write(root);
    var reader := new Reader(text);
    v := reader.ReadValue();
    RoundTrip(root);
  }
}
