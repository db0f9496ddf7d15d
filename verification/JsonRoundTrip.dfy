/** Reading what FastWriter wrote gives the value back. */
module JsonRoundTrip {
  import opened Bytes
  import opened Options
  import opened JsonText
  import opened JsonReader

  /** The reader gives every integer below 2^31 the signed tag and larger ones the unsigned tag. */
  function Tagged(i: int): Json { if i < TWO_31 then Int(i) else UInt(i) }

  function Retagged(v: Json): Json {
    match v
    case Int(i) => Tagged(i)
    case UInt(u) => Tagged(u)
    case Arr(items) => Arr(seq(|items|, k requires 0 <= k < |items| => Retagged(items[k])))
    case Obj(members) =>
      Obj(seq(|members|, k requires 0 <= k < |members| => Member(members[k].name, Retagged(members[k].value))))
    case _ => v
  }

  /** What may follow a value. */
  predicate Stops(rest: string) {
    rest != [] && (rest[0] == ',' || rest[0] == ']' || rest[0] == '}' || rest[0] == '\n')
  }

  // ---------------------------------------------------------------------------------------
  // Strings

  predicate Plain(c: char) { c != '\\' && c != '"' }

  lemma EndAfterPlain(c: char, t: string)
    requires Plain(c)
    ensures StringEnd([c] + t) == Shift(StringEnd(t), 1)
  {
    assert ([c] + t)[1..] == t;
  }

  lemma EndAfterEscape(c: char, t: string)
    ensures StringEnd(['\\', c] + t) == Shift(StringEnd(t), 2)
  {
    assert (['\\', c] + t)[2..] == t;
  }

  lemma EndAfterUnicode(x: char, y: char, t: string)
    requires Plain(x) && Plain(y)
    ensures StringEnd("\\u00" + [x, y] + t) == Shift(StringEnd(t), 6)
  {
    hide StringEnd;
    var t1 := [y] + t;
    var t2 := [x] + t1;
    var t3 := ['0'] + t2;
    var t4 := ['0'] + t3;
    assert "\\u00" + [x, y] + t == ['\\', 'u'] + t4;
    EndAfterPlain(y, t);
    EndAfterPlain(x, t1);
    EndAfterPlain('0', t2);
    EndAfterPlain('0', t3);
    EndAfterEscape('u', t4);
  }

  lemma HexDigitPlain(d: nat)
    requires d < 16
    ensures Plain(HexDigit(d)) && HexValue(HexDigit(d)) == d
  {
  }

  lemma EndAfterChar(c: char, t: string)
    ensures StringEnd(EscapeChar(c) + t) == Shift(StringEnd(t), |EscapeChar(c)|)
  {
    hide StringEnd;
    if |EscapeChar(c)| == 1 {
      EndAfterPlain(c, t);
    } else if |EscapeChar(c)| == 2 {
      EndAfterEscape(EscapeChar(c)[1], t);
      assert EscapeChar(c) == ['\\', EscapeChar(c)[1]];
    } else {
      HexDigitPlain(c as int / 16);
      HexDigitPlain(c as int % 16);
      EndAfterUnicode(HexDigit(c as int / 16), HexDigit(c as int % 16), t);
    }
  }

  lemma Associate(a: string, b: string, c: string)
    ensures (a + b) + c == a + (b + c)
  {
  }

  /** The scanner finds the quote after the escaped text. */
  lemma {:induction false} StringEndsAtQuote(s: string, rest: string)
    requires NulFree(s)
    ensures StringEnd(Escaped(s) + ("\"" + rest)) == Some(|Escaped(s)|)
  {
    hide EscapeChar, StringEnd;
    var q := "\"" + rest;
    EscapedFront(s);
    hide Escaped;
    if s == [] {
      EndAtOnce(rest);
      assert "" + q == q;
    } else {
      StringEndsAtQuote(s[1..], rest);
      EndAfterChar(s[0], Escaped(s[1..]) + q);
      Associate(EscapeChar(s[0]), Escaped(s[1..]), q);
    }
  }

  lemma EscapedFront(s: string)
    requires NulFree(s)
    ensures s == [] ==> Escaped(s) == ""
    ensures s != [] ==> Escaped(s) == EscapeChar(s[0]) + Escaped(s[1..])
  {
  }

  lemma EndAtOnce(rest: string)
    ensures StringEnd("\"" + rest) == Some(0)
  {
  }

  lemma DecodePlain(c: char, t: string)
    requires Plain(c)
    ensures DecodeString([c] + t) == Prefixed([c], DecodeString(t))
  {
    assert ([c] + t)[1..] == t;
  }

  lemma DecodeLetter(c: char, d: char, t: string)
    requires c != 'u' && Unescape(c) == Some(d)
    ensures DecodeString(['\\', c] + t) == Prefixed([d], DecodeString(t))
  {
    assert (['\\', c] + t)[2..] == t;
  }

  lemma DecodeUnicode(c: char, t: string)
    requires Control(c)
    ensures DecodeString("\\u00" + [HexDigit(c as int / 16), HexDigit(c as int % 16)] + t) ==
            Prefixed([c], DecodeString(t))
  {
    HexDigitPlain(c as int / 16);
    HexDigitPlain(c as int % 16);
    var e, u := "\\u00" + [HexDigit(c as int / 16), HexDigit(c as int % 16)] + t,
        "00" + [HexDigit(c as int / 16), HexDigit(c as int % 16)] + t;
    assert e[2..] == u && u[4..] == t;
    assert HexQuad(u) == Some(c as int) by { assert u[0] == '0' && u[1] == '0' && HexValue('0') == 0; }
    assert UnicodeEscape(u) == Some(CodePoint(c as int, t));
    hide HexQuad, UnicodeEscape, HexDigit;
    assert DecodeString(e) == Prefixed(Utf8(c as int), DecodeString(t));
  }

  lemma DecodeChar(c: char, t: string)
    ensures DecodeString(EscapeChar(c) + t) == Prefixed([c], DecodeString(t))
  {
    hide DecodeString, HexDigit;
    if |EscapeChar(c)| == 1 {
      DecodePlain(c, t);
    } else if |EscapeChar(c)| == 2 {
      assert EscapeChar(c) == ['\\', EscapeChar(c)[1]];
      DecodeLetter(EscapeChar(c)[1], c, t);
    } else {
      DecodeUnicode(c, t);
    }
  }

  lemma {:induction false} DecodeEscaped(s: string)
    requires NulFree(s)
    ensures DecodeString(Escaped(s)) == Some(s)
  {
    if s != [] {
      hide EscapeChar, DecodeString;
      DecodeEscaped(s[1..]);
      DecodeChar(s[0], Escaped(s[1..]));
      assert [s[0]] + s[1..] == s;
    }
  }

  lemma TokenOfString(r: string, n: nat)
    requires StringEnd(r) == Some(n)
    ensures ReadToken("\"" + r) == Read(StringToken(r[..n]), r[n + 1..])
  {
    var t := "\"" + r;
    assert t[1..] == r && SkipSpaces(t) == t;
  }

  /** A string is read as one token, whatever follows. */
  lemma ReadQuoted(s: string, rest: string)
    requires NulFree(s)
    ensures ReadToken(Quoted(s) + rest) == Read(StringToken(Escaped(s)), rest)
  {
    hide StringEnd, Escaped, EscapeChar, ReadToken;
    var r, n := Escaped(s) + ("\"" + rest), |Escaped(s)|;
    StringEndsAtQuote(s, rest);
    TokenOfString(r, n);
    assert Quoted(s) + rest == "\"" + r;
    assert r[..n] == Escaped(s) && r[n + 1..] == rest;
  }

  // ---------------------------------------------------------------------------------------
  // Numbers

  predicate AllDigits(s: string) { forall i | 0 <= i < |s| :: '0' <= s[i] <= '9' }

  lemma {:induction false} DigitsAreDigits(n: nat)
    ensures AllDigits(Digits(n))
  {
    if n >= 10 { DigitsAreDigits(n / 10); }
  }

  lemma {:induction false} NumberStops(ds: string, rest: string)
    requires AllDigits(ds) && Stops(rest)
    ensures NumberEnd(ds + rest) == |ds|
  {
    if ds == [] {
      assert ds + rest == rest;
    } else {
      assert (ds + rest)[1..] == ds[1..] + rest;
      NumberStops(ds[1..], rest);
    }
  }

  lemma WithinRange(negative: bool, d: nat, value: nat)
    requires d < 10 && (value < Threshold(negative) || (value == Threshold(negative) && d <= LastDigit(negative)))
    ensures (value * 10 + d) % TWO_64 == value * 10 + d
  {
  }

  lemma ParseDigit(negative: bool, d: nat, tail: string, value: nat)
    requires d < 10
    requires (value < Threshold(negative) || (tail == [] && value == Threshold(negative) && d <= LastDigit(negative)))
    ensures ParseDigits(negative, [Digit(d)] + tail, value) == ParseDigits(negative, tail, value * 10 + d)
  {
    var ds := [Digit(d)] + tail;
    assert ds[1..] == tail && ds[0] == Digit(d) && ds[0] as int - '0' as int == d;
    WithinRange(negative, d, value);
    hide Threshold, LastDigit, Digit;
  }

  /** Reading the digits of n, within the largest value, leaves the value n. */
  lemma {:induction false} ParseOfDigits(negative: bool, n: nat, tail: string)
    requires n / 10 < Threshold(negative) ||
             (tail == [] && n / 10 == Threshold(negative) && n % 10 <= LastDigit(negative))
    ensures ParseDigits(negative, Digits(n) + tail, 0) == ParseDigits(negative, tail, n)
  {
    assert Threshold(negative) > 0;
    hide ParseDigits, Threshold, LastDigit, Digit;
    if n < 10 {
      ParseDigit(negative, n, tail, 0);
    } else {
      var d := [Digit(n % 10)];
      assert Digits(n) + tail == Digits(n / 10) + (d + tail);
      assert n / 10 / 10 < n / 10;
      ParseOfDigits(negative, n / 10, d + tail);
      ParseDigit(negative, n % 10, tail, n / 10);
    }
  }

  lemma NegativeNotReal(ds: string)
    requires AllDigits(ds)
    ensures !LooksReal("-" + ds)
  {
    var t := "-" + ds;
    assert forall i | 0 < i < |t| :: t[i] == ds[i - 1];
  }

  lemma ParseNothing(negative: bool, n: nat)
    ensures ParseDigits(negative, "", n) == Some(n)
  {
  }

  /** A written integer is read as one token. */
  lemma ReadIntText(i: int, rest: string)
    requires Stops(rest)
    ensures IntText(i) != [] && ReadToken(IntText(i) + rest) == Read(NumberToken(IntText(i)), rest)
  {
    DigitsAreDigits(if i < 0 then -i else i);
    var t := IntText(i);
    var s := t + rest;
    assert AllDigits(t[1..]) by { assert t[1..] == if i < 0 then Digits(-i) else Digits(i)[1..]; }
    assert s[1..] == t[1..] + rest;
    NumberStops(t[1..], rest);
    assert s[0] == t[0] && ('0' <= t[0] <= '9' || t[0] == '-');
    hide NumberEnd, ReadToken, IntText;
    TokenOfNumber(s);
    assert s[..|t|] == t && s[|t|..] == rest;
  }

  lemma TokenOfNumber(s: string)
    requires s != [] && ('0' <= s[0] <= '9' || s[0] == '-')
    ensures var n := 1 + NumberEnd(s[1..]); ReadToken(s) == Read(NumberToken(s[..n]), s[n..])
  {
    assert SkipSpaces(s) == s;
  }

  /** Where the value already is at the threshold and digits follow, the reader turns to a real number. */
  lemma {:induction false} TooManyDigits(negative: bool, n: nat, tail: string)
    requires n / 10 >= Threshold(negative) && tail != []
    ensures ParseDigits(negative, Digits(n) + tail, 0) == None
  {
    assert Threshold(negative) > 0;
    hide ParseDigits, Threshold, LastDigit, Digit;
    var d := [Digit(n % 10)];
    assert Digits(n) + tail == Digits(n / 10) + (d + tail);
    if n / 10 / 10 >= Threshold(negative) {
      TooManyDigits(negative, n / 10, d + tail);
    } else {
      ParseOfDigits(negative, n / 10, d + tail);
      ParseStops(negative, n % 10, tail, n / 10);
    }
  }

  lemma ParseStops(negative: bool, d: nat, tail: string, value: nat)
    requires d < 10 && value >= Threshold(negative) && (tail != [] || d > LastDigit(negative))
    ensures ParseDigits(negative, [Digit(d)] + tail, value) == None
  {
    var ds := [Digit(d)] + tail;
    assert ds[0] == Digit(d) && ds[0] as int - '0' as int == d;
  }

  lemma ParseLast(negative: bool, d: nat, value: nat)
    requires d <= LastDigit(negative)
    ensures ParseDigits(negative, [Digit(d)], value) == Some((value * 10 + d) % TWO_64)
  {
    var ds := [Digit(d)];
    assert ds[1..] == "" && ds[0] as int - '0' as int == d;
  }

  /** The largest magnitude of a literal with or without a sign. */
  function Largest(negative: bool): nat { if negative then TWO_63 else TWO_64 - 1 }

  /**
   * Past the largest value a literal wraps around when all digits but the last two stay below the threshold and the
   * last one is small.
   */
  predicate Unnoticed(negative: bool, n: nat) { n / 100 < Threshold(negative) && n % 10 <= LastDigit(negative) }

  lemma LargestSplits(negative: bool, n: nat)
    ensures n > Largest(negative) ==> n / 10 >= Threshold(negative)
    ensures n <= Largest(negative) ==>
            n / 10 < Threshold(negative) || (n / 10 == Threshold(negative) && n % 10 <= LastDigit(negative))
    ensures n / 10 / 10 == n / 100
  {
  }

  /**
   * What the digit loop makes of the digits of any number: the number itself up to the largest, and above it
   * nothing or a wrapped number.
   */
  lemma DigitLoop(negative: bool, n: nat)
    ensures ParseDigits(negative, Digits(n), 0) ==
            if n <= Largest(negative) then Some(n)
            else if Unnoticed(negative, n) then Some(n % TWO_64)
            else None
  {
    LargestSplits(negative, n);
    ParseNothing(negative, n);
    hide ParseDigits, Threshold, LastDigit, Digit, Largest;
    assert Digits(n) + "" == Digits(n);
    if n <= Largest(negative) {
      ParseOfDigits(negative, n, "");
    } else {
      LargestIsTwoDigits(negative);
      var d := [Digit(n % 10)];
      assert Digits(n) == Digits(n / 10) + d;
      if n / 100 >= Threshold(negative) {
        TooManyDigits(negative, n / 10, d);
      } else {
        ParseOfDigits(negative, n / 10, d);
        assert d + "" == d;
        if n % 10 <= LastDigit(negative) {
          ParseLast(negative, n % 10, n / 10);
        } else {
          ParseStops(negative, n % 10, "", n / 10);
        }
      }
    }
  }

  lemma LargestIsTwoDigits(negative: bool)
    ensures Largest(negative) >= 10
  {
  }

  /** Negating the signed form of a 64-bit value gives the signed form of the negative number. */
  lemma SignedNegation(n: nat)
    ensures Signed(-Signed(n % TWO_64)) == Signed(0 - n)
  {
    var m := n % TWO_64;
    assert n == m + TWO_64 * (n / TWO_64);
    assert Signed(m) == m || Signed(m) == m - TWO_64;
    SignedPeriod(0 - n, n / TWO_64);
    SignedPeriod(0 - m, 1);
  }

  lemma SignedPeriod(x: int, k: int)
    ensures Signed(x + TWO_64 * k) == Signed(x)
  {
    assert (x + TWO_63 + TWO_64 * k) % TWO_64 == (x + TWO_63) % TWO_64;
  }

  /** What the reader returns for the text of any integer whatever. */
  lemma LiteralValue(i: int)
    ensures IntText(i) != []
    ensures var n := if i < 0 then -i else i;
            DecodeNumber(IntText(i)) ==
            if n <= Largest(i < 0) then Some(Tagged(i))
            else if !Unnoticed(i < 0, n) then None
            else if i < 0 then Some(Int(Signed(i)))
            else Some(Tagged(i % TWO_64))
  {
    hide Largest, Unnoticed, Signed, Digits, DecodeNumber;
    if i < 0 {
      NegativeLiteral(-i);
      SignedNegation(-i);
      SignedOfNegative(i);
    } else {
      PlainLiteral(i);
    }
  }

  lemma PlainLiteral(n: nat)
    ensures DecodeNumber(Digits(n)) ==
            if n <= Largest(false) then Some(Tagged(n))
            else if Unnoticed(false, n) then Some(Tagged(n % TWO_64))
            else None
  {
    DigitsAreDigits(n);
    DigitLoop(false, n);
    assert !LooksReal(Digits(n));
    hide Digits, ParseDigits, LooksReal, Largest, Unnoticed;
  }

  lemma NegativeLiteral(n: nat)
    ensures DecodeNumber("-" + Digits(n)) ==
            if n <= Largest(true) then Some(Int(Signed(-Signed(n))))
            else if Unnoticed(true, n) then Some(Int(Signed(-Signed(n % TWO_64))))
            else None
  {
    DigitsAreDigits(n);
    DigitLoop(true, n);
    hide Digits, ParseDigits, Largest, Unnoticed, Signed;
    NegativeNotReal(Digits(n));
    assert ("-" + Digits(n))[1..] == Digits(n);
    hide LooksReal;
  }

  lemma SignedOfNegative(i: int)
    requires i < 0
    ensures -i <= Largest(true) ==> Signed(i) == i && Signed(-Signed(-i)) == i
  {
  }

  /** An integer's text is read back as that integer exactly between -2^63 and 2^64 - 1. */
  lemma LiteralExact(i: int)
    ensures IntText(i) != []
    ensures DecodeNumber(IntText(i)) == Some(Tagged(i)) <==> -TWO_63 <= i < TWO_64
  {
    LiteralValue(i);
    assert Signed(i) >= -TWO_63 && i % TWO_64 < TWO_64;
    hide DecodeNumber, Digits, Unnoticed;
  }

  /** A negative literal can come back positive. */
  lemma NegativeLiteralWraps()
    ensures DecodeNumber(IntText(-9999999999999999990)) == Some(Int(8446744073709551626))
  {
    assert Unnoticed(true, 9999999999999999990);
    assert Signed(-9999999999999999990) == 8446744073709551626;
    hide DecodeNumber, IntText, Unnoticed, Signed;
    LiteralValue(-9999999999999999990);
  }

  // ---------------------------------------------------------------------------------------
  // Values

  lemma TokenOfMark(c: char, r: string)
    ensures c == '{' ==> ReadToken([c] + r) == Read(ObjectBegin, r)
    ensures c == '}' ==> ReadToken([c] + r) == Read(ObjectEnd, r)
    ensures c == '[' ==> ReadToken([c] + r) == Read(ArrayBegin, r)
    ensures c == ']' ==> ReadToken([c] + r) == Read(ArrayEnd, r)
    ensures c == ',' ==> ReadToken([c] + r) == Read(ArraySeparator, r)
    ensures c == ':' ==> ReadToken([c] + r) == Read(MemberSeparator, r)
  {
    var s := [c] + r;
    assert s[1..] == r;
    if !Space(c) { assert SkipSpaces(s) == s; }
  }

  lemma TokenOfWord(r: string)
    ensures ReadToken("null" + r) == Read(NullToken, r)
    ensures ReadToken("true" + r) == Read(TrueToken, r)
    ensures ReadToken("false" + r) == Read(FalseToken, r)
  {
    TokenOfLetter('n', "ull" + r);
    TokenOfLetter('t', "rue" + r);
    TokenOfLetter('f', "alse" + r);
    hide ReadToken;
    assert "null" + r == ['n'] + ("ull" + r) && ("ull" + r)[3..] == r;
    assert "true" + r == ['t'] + ("rue" + r) && ("rue" + r)[3..] == r;
    assert "false" + r == ['f'] + ("alse" + r) && ("alse" + r)[4..] == r;
  }

  lemma TokenOfLetter(c: char, r: string)
    ensures c == 'n' ==> ReadToken([c] + r) == Match("ull", NullToken, r)
    ensures c == 't' ==> ReadToken([c] + r) == Match("rue", TrueToken, r)
    ensures c == 'f' ==> ReadToken([c] + r) == Match("alse", FalseToken, r)
  {
    var s := [c] + r;
    assert s[1..] == r;
    if !Space(c) { assert SkipSpaces(s) == s; }
  }

  /** A value's text does not begin with a space or a closing bracket. */
  lemma FrontOfText(v: Json)
    ensures Text(v) != [] && !Space(Text(v)[0]) && Text(v)[0] != ']'
  {
    match v
    case Int(i) => DigitsAreDigits(if i < 0 then -i else i);
    case UInt(u) => DigitsAreDigits(u);
    case _ =>
  }

  lemma {:induction false} BeforeIsStrict(a: string, b: string)
    requires Before(a, b)
    ensures a != b && !Before(b, a)
    decreases |a|
  {
    if a != [] && a[0] == b[0] { BeforeIsStrict(a[1..], b[1..]); }
  }

  /** A member whose name comes after all others goes to the end. */
  lemma {:induction false} PutLast(members: seq<Member>, m: Member)
    requires forall k | 0 <= k < |members| :: Before(members[k].name, m.name)
    ensures Put(members, m) == members + [m]
  {
    if members != [] {
      BeforeIsStrict(members[0].name, m.name);
      PutLast(members[1..], m);
    }
  }

  /** The value of a member, found by name. */
  function ValueOf(members: seq<Member>, name: string): Option<Json> {
    if members == [] then None
    else if members[0].name == name then Some(members[0].value)
    else ValueOf(members[1..], name)
  }

  lemma {:induction false} BeforeTotal(a: string, b: string)
    ensures a == b || Before(a, b) || Before(b, a)
  {
    if a != [] && b != [] && a[0] == b[0] {
      BeforeTotal(a[1..], b[1..]);
      assert a == [a[0]] + a[1..] && b == [b[0]] + b[1..];
    }
  }

  lemma {:induction false} BeforeTransitive(a: string, b: string, c: string)
    requires Before(a, b) && Before(b, c)
    ensures Before(a, c)
    decreases |a|
  {
    if a != [] && a[0] == b[0] == c[0] {
      BeforeTransitive(a[1..], b[1..], c[1..]);
    }
  }

  /** x comes before all members of s. */
  predicate Leads(x: string, s: seq<Member>) { forall i | 0 <= i < |s| :: Before(x, s[i].name) }

  lemma SortedCons(x: Member, s: seq<Member>)
    requires Sorted(s) && Leads(x.name, s)
    ensures Sorted([x] + s)
  {
  }

  lemma SortedRest(s: seq<Member>)
    requires s != [] && Sorted(s)
    ensures Sorted(s[1..]) && Leads(s[0].name, s[1..])
  {
  }

  lemma {:induction false} PutLeads(x: string, members: seq<Member>, m: Member)
    requires Leads(x, members) && Before(x, m.name)
    ensures Leads(x, Put(members, m))
  {
    hide Before;
    if members != [] && members[0].name != m.name && !Before(m.name, members[0].name) {
      PutLeads(x, members[1..], m);
    }
  }

  /** Reading a member assigns to its name: the last value wins, the others stay, and the order is that of the names. */
  lemma {:induction false} PutUpdates(members: seq<Member>, m: Member, name: string)
    requires Sorted(members)
    ensures Sorted(Put(members, m))
    ensures ValueOf(Put(members, m), name) == if name == m.name then Some(m.value) else ValueOf(members, name)
    decreases |members|
  {
    hide Sorted, Before;
    if members == [] {
      SortedCons(m, []) by { OneSorted(); }
      assert Put(members, m) == [m] + [];
    } else {
      var first, rest := members[0], members[1..];
      SortedRest(members);
      PutUpdates(rest, m, name);
      BeforeTotal(first.name, m.name);
      if first.name == m.name {
        SortedCons(m, rest);
        assert ([m] + rest)[1..] == rest;
      } else if Before(m.name, first.name) {
        forall i | 0 <= i < |members| ensures Before(m.name, members[i].name) {
          if i > 0 { BeforeTransitive(m.name, first.name, rest[i - 1].name); }
        }
        SortedCons(m, members);
        assert ([m] + members)[1..] == members;
      } else {
        PutLeads(first.name, rest, m);
        SortedCons(first, Put(rest, m));
        assert ([first] + Put(rest, m))[1..] == Put(rest, m);
      }
    }
  }

  lemma OneSorted()
    ensures Sorted([])
  {
  }

  lemma {:induction false} SpacesSkipped(spaces: string, s: string)
    requires forall i | 0 <= i < |spaces| :: Space(spaces[i])
    ensures SkipSpaces(spaces + s) == SkipSpaces(s)
    decreases |spaces|
  {
    if spaces == [] {
      assert spaces + s == s;
    } else {
      assert (spaces + s)[1..] == spaces[1..] + s;
      SpacesSkipped(spaces[1..], s);
    }
  }

  /** Spaces, tabs and line ends in front of a value mean nothing. */
  lemma LeadingSpaces(spaces: string, s: string)
    requires forall i | 0 <= i < |spaces| :: spaces[i] in " \t\r\n"
    ensures ReadToken(spaces + s) == ReadToken(s) && Parse(spaces + s) == Parse(s)
  {
    hide SkipSpaces, TokenFrom, DecodeNumber, DecodeString, ReadItems, ReadMembers;
    SpacesSkipped(spaces, s);
  }

  /** What ReadValue does with each kind of token. */
  lemma ScalarRoundTrip(v: Json, rest: string)
    requires Writable(v) && Stops(rest) && !v.Arr? && !v.Obj?
    ensures ReadValue(Text(v) + rest) == Got(Retagged(v), rest)
  {
    TokenOfWord(rest);
    hide ReadToken, DecodeNumber, DecodeString, IntText, Digits, Quoted, Escaped, ReadItems, ReadMembers, SkipSpaces;
    match v
    case Int(i) => ReadIntText(i, rest); LiteralExact(i);
    case UInt(u) => ReadIntText(u, rest); LiteralExact(u); UnsignedText(u);
    case Str(s) => ReadQuoted(s, rest); DecodeEscaped(s);
    case _ =>
  }

  lemma UnsignedText(u: nat) ensures IntText(u) == Digits(u) { }

  lemma ReadArrayStart(r: string)
    requires r != [] && !Space(r[0])
    ensures ReadValue("[" + r) == if r[0] == ']' then Got(Arr([]), r[1..]) else ReadItems(r, [])
  {
    hide ReadToken, ReadItems;
    TokenOfMark('[', r);
    assert "[" + r == ['['] + r;
    assert SkipSpaces(r) == r;
  }

  lemma ReadObjectStart(r: string)
    ensures ReadValue("{" + r) == ReadMembers(r, [], "")
  {
    hide ReadToken, ReadMembers;
    TokenOfMark('{', r);
    assert "{" + r == ['{'] + r;
  }

  /** The rest of an array after its k-th item. */
  function ItemsTail(v: Json, k: nat, rest: string): string
    requires v.Arr? && k < |v.items|
  {
    ItemsText(v, k + 1) + ("]" + rest)
  }

  function MembersTail(v: Json, k: nat, rest: string): string
    requires v.Obj? && k < |v.members|
  {
    MembersText(v, k + 1) + ("}" + rest)
  }

  function MemberText(v: Json, k: nat, rest: string): string
    requires v.Obj? && k < |v.members|
  {
    Quoted(v.members[k].name) + (":" + (Text(v.members[k].value) + MembersTail(v, k, rest)))
  }

  lemma ItemsTailIs(v: Json, k: nat, rest: string)
    requires v.Arr? && k < |v.items|
    ensures Stops(ItemsTail(v, k, rest))
    ensures k + 1 == |v.items| ==> ItemsTail(v, k, rest) == [']'] + rest
    ensures k + 1 < |v.items| ==> ItemsTail(v, k, rest) == [','] + (Text(v.items[k + 1]) + ItemsTail(v, k + 1, rest))
  {
    hide Text;
    if k + 1 < |v.items| {
      assert ItemsText(v, k + 1) == "," + Text(v.items[k + 1]) + ItemsText(v, k + 2);
    }
  }

  lemma MembersTailIs(v: Json, k: nat, rest: string)
    requires v.Obj? && k < |v.members|
    ensures Stops(MembersTail(v, k, rest))
    ensures k + 1 == |v.members| ==> MembersTail(v, k, rest) == ['}'] + rest
    ensures k + 1 < |v.members| ==> MembersTail(v, k, rest) == [','] + MemberText(v, k + 1, rest)
  {
    hide Text, Quoted;
    if k + 1 < |v.members| {
      assert MembersText(v, k + 1) ==
          "," + Quoted(v.members[k + 1].name) + ":" + Text(v.members[k + 1].value) + MembersText(v, k + 2);
    }
  }

  lemma TextOfArray(v: Json, rest: string)
    requires v.Arr?
    ensures Text(v) + rest == "[" + (if v.items == [] then "]" + rest else Text(v.items[0]) + ItemsTail(v, 0, rest))
  {
    assert Text(v) == "[" + ItemsText(v, 0) + "]";
    hide Text;
    if v.items != [] { assert ItemsText(v, 0) == Text(v.items[0]) + ItemsText(v, 1); }
  }

  lemma TextOfObject(v: Json, rest: string)
    requires v.Obj?
    ensures Text(v) + rest == "{" + (if v.members == [] then ['}'] + rest else MemberText(v, 0, rest))
  {
    assert Text(v) == "{" + MembersText(v, 0) + "}";
    hide Text, Quoted;
    if v.members != [] {
      assert MembersText(v, 0) == Quoted(v.members[0].name) + ":" + Text(v.members[0].value) + MembersText(v, 1);
      RegroupObject(Quoted(v.members[0].name), Text(v.members[0].value), MembersText(v, 1), rest);
    }
  }

  lemma RegroupObject(name: string, value: string, more: string, rest: string)
    ensures "{" + (name + ":" + value + more) + "}" + rest == "{" + (name + (":" + (value + (more + ("}" + rest)))))
  {
  }

  lemma {:induction false} ValueRoundTrip(v: Json, rest: string)
    requires Writable(v) && Stops(rest)
    ensures ReadValue(Text(v) + rest) == Got(Retagged(v), rest)
    decreases v, Width(v) + 1
  {
    hide ReadValue, ReadItems, ReadMembers, ReadToken, Stops, Text, ItemsTail, MemberText;
    match v
    case Arr(items) =>
      TextOfArray(v, rest);
      if items == [] {
        ReadArrayStart("]" + rest);
        assert ("]" + rest)[1..] == rest;
      } else {
        FrontOfText(items[0]);
        ReadArrayStart(Text(items[0]) + ItemsTail(v, 0, rest));
        ItemsRoundTrip(v, 0, rest);
        assert Retagged(v).items[..0] == [];
      }
    case Obj(members) =>
      TextOfObject(v, rest);
      if members == [] {
        ReadObjectStart(['}'] + rest);
        ReadMembersEnd(rest);
      } else {
        ReadObjectStart(MemberText(v, 0, rest));
        MembersRoundTrip(v, 0, rest, "");
        assert Retagged(v).members[..0] == [];
      }
    case _ => ScalarRoundTrip(v, rest);
  }

  lemma ReadMembersEnd(rest: string)
    ensures ReadMembers(['}'] + rest, [], "") == Got(Obj([]), rest)
  {
    hide ReadToken;
    TokenOfMark('}', rest);
  }

  lemma {:induction false} ItemsRoundTrip(v: Json, k: nat, rest: string)
    requires Writable(v) && Stops(rest) && v.Arr? && k < |v.items|
    ensures ReadItems(Text(v.items[k]) + ItemsTail(v, k, rest), Retagged(v).items[..k]) == Got(Retagged(v), rest)
    decreases v, |v.items| - k
  {
    hide ReadValue, ReadToken, Stops, Text, ItemsTail;
    var items := Retagged(v).items;
    ItemsTailIs(v, k, rest);
    ValueRoundTrip(v.items[k], ItemsTail(v, k, rest));
    assert items[..k] + [Retagged(v.items[k])] == items[..k + 1];
    if k + 1 < |v.items| {
      TokenOfMark(',', Text(v.items[k + 1]) + ItemsTail(v, k + 1, rest));
      ItemsRoundTrip(v, k + 1, rest);
    } else {
      TokenOfMark(']', rest);
      assert items[..k + 1] == items;
    }
  }

  lemma {:induction false} MembersRoundTrip(v: Json, k: nat, rest: string, name: string)
    requires Writable(v) && Stops(rest) && v.Obj? && k < |v.members|
    ensures ReadMembers(MemberText(v, k, rest), Retagged(v).members[..k], name) == Got(Retagged(v), rest)
    decreases v, |v.members| - k
  {
    hide ReadValue, ReadToken, Stops, Text, MembersTail, Put, Quoted, Escaped, DecodeString;
    var members, m := Retagged(v).members, v.members[k];
    MembersTailIs(v, k, rest);
    var afterColon := Text(m.value) + MembersTail(v, k, rest);
    ReadQuoted(m.name, ":" + afterColon);
    DecodeEscaped(m.name);
    assert ":" + afterColon == [':'] + afterColon;
    TokenOfMark(':', afterColon);
    ValueRoundTrip(m.value, MembersTail(v, k, rest));
    PutLast(members[..k], members[k]);
    assert members[..k] + [members[k]] == members[..k + 1];
    if k + 1 < |v.members| {
      TokenOfMark(',', MemberText(v, k + 1, rest));
      MembersRoundTrip(v, k + 1, rest, m.name);
    } else {
      TokenOfMark('}', rest);
      assert members[..k + 1] == members;
    }
  }

  /** Reading what FastWriter wrote gives the value back, up to the tag of integers. */
  lemma RoundTrip(v: Json)
    requires Writable(v)
    ensures Parse(Document(v)) == Some(Retagged(v))
  {
    ValueRoundTrip(v, "\n");
  }
}
