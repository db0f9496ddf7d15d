/** Unicode escapes: every code point comes back, through its escape and through UTF-8. */
module JsonUnicode {
  import opened Options
  import opened JsonReader

  // ---------------------------------------------------------------------------------------
  // UTF-8 by lead byte, as section 3 of RFC 3629 lists it

  /** The low six bits of a byte 10xxxxxx. */
  function Continuation(c: char): Option<nat> {
    if 0x80 <= c as int < 0xC0 then Some(c as int - 0x80) else None
  }

  /** The code point whose lead byte gave these bits, and which has some bytes 10xxxxxx to come. */
  function Continued(bits: nat, more: nat, s: string): (r: Option<CodePoint>)
    ensures r.Some? ==> |r.value.rest| <= |s|
    decreases more
  {
    if more == 0 then Some(CodePoint(bits, s))
    else if s == [] || Continuation(s[0]).None? then None
    else Continued(bits * 64 + Continuation(s[0]).value, more - 1, s[1..])
  }

  /** The first code point: the lead byte is 0xxxxxxx, 110xxxxx, 1110xxxx or 11110xxx. */
  function FromUtf8(s: string): (r: Option<CodePoint>)
    ensures r.Some? ==> |r.value.rest| < |s|
  {
    if s == [] then None
    else
      var lead := s[0] as int;
      if lead < 0x80 then Some(CodePoint(lead, s[1..]))
      else if 0xC0 <= lead < 0xE0 then Continued(lead - 0xC0, 1, s[1..])
      else if 0xE0 <= lead < 0xF0 then Continued(lead - 0xE0, 2, s[1..])
      else if 0xF0 <= lead < 0xF8 then Continued(lead - 0xF0, 3, s[1..])
      else None
  }

  lemma ContinuedStep(bits: nat, more: nat, low: nat, s: string)
    requires low < 64
    ensures Continued(bits, more + 1, [(0x80 + low) as char] + s) == Continued(bits * 64 + low, more, s)
  {
    var t := [(0x80 + low) as char] + s;
    assert t[1..] == s;
  }

  /** codePointToUTF8 writes the UTF-8 form of every code point. */
  lemma Utf8RoundTrip(cp: nat, rest: string)
    requires cp < 0x11_0000
    ensures Utf8(cp) != [] && FromUtf8(Utf8(cp) + rest) == Some(CodePoint(cp, rest))
  {
    hide Continued, FromUtf8;
    var last := [(0x80 + cp % 64) as char] + rest;
    var two := [(0x80 + cp / 64 % 64) as char] + last;
    var three := [(0x80 + cp / 4096 % 64) as char] + two;
    if cp <= 0x7f {
      LeadByte(cp, rest);
    } else if cp <= 0x7FF {
      LeadByte(0xC0 + cp / 64, last);
      OneContinues(cp, rest);
      assert Utf8(cp) + rest == [(0xC0 + cp / 64) as char] + last;
    } else if cp <= 0xFFFF {
      LeadByte(0xE0 + cp / 4096, two);
      TwoContinue(cp, rest);
      assert Utf8(cp) + rest == [(0xE0 + cp / 4096) as char] + two;
    } else {
      LeadByte(0xF0 + cp / 262144, three);
      ContinuedStep(cp / 262144, 2, cp / 4096 % 64, two);
      TwoContinue(cp, rest);
      assert Utf8(cp) + rest == [(0xF0 + cp / 262144) as char] + three;
    }
  }

  lemma LeadByte(lead: nat, s: string)
    requires lead < 0xF8
    ensures FromUtf8([lead as char] + s) ==
            if lead < 0x80 then Some(CodePoint(lead, s))
            else if lead < 0xC0 then None
            else if lead < 0xE0 then Continued(lead - 0xC0, 1, s)
            else if lead < 0xF0 then Continued(lead - 0xE0, 2, s)
            else Continued(lead - 0xF0, 3, s)
  {
    hide Continued;
    var t := [lead as char] + s;
    assert t[1..] == s;
  }

  lemma OneContinues(cp: nat, rest: string)
    ensures Continued(cp / 64, 1, [(0x80 + cp % 64) as char] + rest) == Some(CodePoint(cp, rest))
  {
    hide Continued;
    ContinuedStep(cp / 64, 0, cp % 64, rest);
    ContinuedEnd(cp, rest);
  }

  lemma TwoContinue(cp: nat, rest: string)
    ensures Continued(cp / 4096, 2, [(0x80 + cp / 64 % 64) as char] + ([(0x80 + cp % 64) as char] + rest)) ==
            Some(CodePoint(cp, rest))
  {
    hide Continued;
    ContinuedStep(cp / 4096, 1, cp / 64 % 64, [(0x80 + cp % 64) as char] + rest);
    OneContinues(cp, rest);
  }

  lemma ContinuedEnd(cp: nat, rest: string)
    ensures Continued(cp, 0, rest) == Some(CodePoint(cp, rest))
  {
  }

  // ---------------------------------------------------------------------------------------
  // Escapes

  /** A hexadecimal digit, in either case. */
  predicate IsHex(c: char, v: nat) { v < 16 && (c == "0123456789abcdef"[v] || c == "0123456789ABCDEF"[v]) }

  lemma HexValueOf(c: char, v: nat)
    requires IsHex(c, v)
    ensures HexValue(c) == v
  {
  }

  /** A backslash, u and four hexadecimal digits. */
  predicate IsUnit(e: string, v: nat) {
    && |e| == 6 && e[0] == '\\' && e[1] == 'u'
    && IsHex(e[2], v / 4096) && IsHex(e[3], v / 256 % 16) && IsHex(e[4], v / 16 % 16) && IsHex(e[5], v % 16)
  }

  /** The escape of a code point: one unit, or above 0xFFFF a pair of surrogates. */
  predicate IsEscape(e: string, cp: nat) {
    if cp <= 0xFFFF then IsUnit(e, cp)
    else
      && |e| == 12 && IsUnit(e[..6], 0xD800 + (cp - 0x1_0000) / 0x400)
      && IsUnit(e[6..], 0xDC00 + (cp - 0x1_0000) % 0x400)
  }

  lemma QuadOf(e: string, v: nat, t: string)
    requires IsUnit(e, v) && v < 0x1_0000
    ensures HexQuad(e[2..] + t) == Some(v)
  {
    hide IsHex, HexValue;
    HexValueOf(e[2], v / 4096);
    HexValueOf(e[3], v / 256 % 16);
    HexValueOf(e[4], v / 16 % 16);
    HexValueOf(e[5], v % 16);
    var q := e[2..] + t;
    assert q[0] == e[2] && q[1] == e[3] && q[2] == e[4] && q[3] == e[5];
    assert v == ((v / 4096 * 16 + v / 256 % 16) * 16 + v / 16 % 16) * 16 + v % 16;
  }

  /** A surrogate of the first half cannot be escaped on its own. */
  predicate HighSurrogate(cp: nat) { 0xD800 <= cp <= 0xDBFF }

  lemma EscapeReads(e: string, cp: nat, t: string)
    requires IsEscape(e, cp) && cp < 0x11_0000 && !HighSurrogate(cp)
    ensures |e| >= 6 && e[0] == '\\' && e[1] == 'u'
    ensures UnicodeEscape(e[2..] + t) == Some(CodePoint(cp, t))
  {
    hide IsHex, HexQuad;
    var s := e[2..] + t;
    if cp <= 0xFFFF {
      QuadOf(e, cp, t);
      assert s[4..] == t;
    } else {
      var d := cp - 0x1_0000;
      var high, low := 0xD800 + d / 0x400, 0xDC00 + d % 0x400;
      QuadOf(e[..6], high, e[6..] + t);
      assert s == e[..6][2..] + (e[6..] + t);
      QuadOf(e[6..], low, t);
      assert s[4..][2..] == e[6..][2..] + t;
      assert s[4..][6..] == t;
      assert high % 0x400 == d / 0x400 && low % 0x400 == d % 0x400;
    }
  }

  /** The decoder writes the UTF-8 form of an escaped code point and goes on behind the escape. */
  lemma EscapeDecodes(e: string, cp: nat, t: string)
    requires IsEscape(e, cp) && cp < 0x11_0000 && !HighSurrogate(cp)
    ensures DecodeString(e + t) == Prefixed(Utf8(cp), DecodeString(t))
  {
    hide IsHex, IsEscape, UnicodeEscape, Utf8;
    EscapeReads(e, cp, t);
    var s := e + t;
    assert s[0] == e[0] && s[1] == e[1] && s[2..] == e[2..] + t;
  }

  /** An escape on its own decodes to its code point exactly when that is no surrogate of the first half. */
  lemma EscapeExactly(e: string, cp: nat)
    requires IsEscape(e, cp) && cp < 0x11_0000
    ensures (exists d :: DecodeString(e) == Some(d) && FromUtf8(d) == Some(CodePoint(cp, ""))) <==> !HighSurrogate(cp)
  {
    assert e + "" == e;
    if HighSurrogate(cp) {
      LoneSurrogate(e, cp);
    } else {
      hide DecodeString, IsEscape, Utf8;
      EscapeDecodes(e, cp, "");
      Utf8RoundTrip(cp, "");
      assert Utf8(cp) + "" == Utf8(cp);
      NothingDecodes();
      assert DecodeString(e) == Some(Utf8(cp));
    }
  }

  lemma NothingDecodes()
    ensures DecodeString("") == Some("") && CodePoints("") == Some([])
  {
  }

  lemma LoneSurrogate(e: string, cp: nat)
    requires IsEscape(e, cp) && HighSurrogate(cp)
    ensures DecodeString(e) == None
  {
    hide IsHex, HexQuad;
    QuadOf(e, cp, "");
    assert e[2..] + "" == e[2..];
  }

  /** The escapes of one letter, and the characters that section 7 of RFC 8259 gives them. */
  const LETTERS: string := "\"\\/bfnrt"
  const MEANINGS: seq<nat> := [0x22, 0x5C, 0x2F, 0x08, 0x0C, 0x0A, 0x0D, 0x09]

  lemma LetterDecodes(i: nat, t: string)
    requires i < |LETTERS| == |MEANINGS|
    ensures DecodeString(['\\', LETTERS[i]] + t) == Prefixed([MEANINGS[i] as char], DecodeString(t))
  {
    var s := ['\\', LETTERS[i]] + t;
    assert s[2..] == t;
    assert Unescape(LETTERS[i]) == Some(MEANINGS[i] as char);
  }

  // ---------------------------------------------------------------------------------------
  // Whole texts

  /** All code points of a UTF-8 text. */
  function CodePoints(s: string): Option<seq<nat>>
    decreases |s|
  {
    if s == [] then Some([])
    else
      var first := FromUtf8(s);
      if first.None? then None
      else
        var later := CodePoints(first.value.rest);
        if later.None? then None else Some([first.value.value] + later.value)
  }

  /** A text that escapes each of these code points in turn. */
  predicate Escapes(text: string, cps: seq<nat>)
    decreases |cps|
  {
    if cps == [] then text == []
    else exists n | 0 <= n <= |text| :: IsEscape(text[..n], cps[0]) && Escapes(text[n..], cps[1..])
  }

  /** Every sequence of code points comes back from its escapes. */
  lemma {:induction false} EscapedTextDecodes(text: string, cps: seq<nat>) returns (d: string)
    requires Escapes(text, cps) && forall i | 0 <= i < |cps| :: cps[i] < 0x11_0000 && !HighSurrogate(cps[i])
    ensures DecodeString(text) == Some(d) && CodePoints(d) == Some(cps)
    decreases |cps|
  {
    hide DecodeString, IsEscape, Utf8, FromUtf8, CodePoints;
    if cps == [] {
      d := "";
      NothingDecodes();
    } else {
      var n :| 0 <= n <= |text| && IsEscape(text[..n], cps[0]) && Escapes(text[n..], cps[1..]);
      var later := EscapedTextDecodes(text[n..], cps[1..]);
      EscapeDecodes(text[..n], cps[0], text[n..]);
      assert text[..n] + text[n..] == text;
      d := Utf8(cps[0]) + later;
      CodePointsNext(cps[0], later, cps[1..]);
      assert [cps[0]] + cps[1..] == cps;
    }
  }

  lemma CodePointsNext(cp: nat, s: string, cps: seq<nat>)
    requires cp < 0x11_0000 && CodePoints(s) == Some(cps)
    ensures CodePoints(Utf8(cp) + s) == Some([cp] + cps)
  {
    hide Utf8, FromUtf8;
    Utf8RoundTrip(cp, s);
  }
}
