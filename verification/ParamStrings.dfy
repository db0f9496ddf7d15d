/** Parameter strings: EscapeParamString, htmldecode (with html false) and ParseParamStrHttp (without SQL escaping). */
module ParamStrings {

  function EscapeChar(c: char): string {
    match c
    case '%' => "%25"
    case '&' => "%26"
    case '$' => "%24"
    case '/' => "%2F"
    case ' ' => "%20"
    case '#' => "%23"
    case '+' => "%2B"
    case '\n' => "%0A"
    case '\r' => "%0D"
    case _ => [c]
  }

  function Escape(s: string): string {
    if s == [] then [] else Escape(s[..|s| - 1]) + EscapeChar(s[|s| - 1])
  }

  /** The value of a hexadecimal digit, in either case; other characters are skipped by hexToULong. */
  function HexDigit(c: char): int {
    if '0' <= c <= '9' then c as int - '0' as int
    else if 'a' <= c <= 'f' then c as int - 'a' as int + 10
    else if 'A' <= c <= 'F' then c as int - 'A' as int + 10
    else -1
  }

  function HexByte(a: char, b: char): (v: int)
    ensures 0 <= v < 256
  {
    var x, y := HexDigit(a), HexDigit(b);
    if x < 0 then (if y < 0 then 0 else y) else if y < 0 then x else x * 16 + y
  }

  /** A decoded NUL is dropped. */
  function HexText(a: char, b: char): string {
    var v := HexByte(a, b);
    if v == 0 then "" else [v as char]
  }

  /** htmldecode: %XX and + are replaced, a % too close to the end is kept. */
  function Decode(s: string): string
    decreases |s|
  {
    if s == [] then []
    else if s[0] == '%' && 2 < |s| then HexText(s[1], s[2]) + Decode(s[3..])
    else [if s[0] == '+' then ' ' else s[0]] + Decode(s[1..])
  }

  /** Decoding undoes escaping, also when more escaped text follows. */
  lemma {:induction false} DecodeEscape(s: string, rest: string)
    ensures Decode(Escape(s) + rest) == s + Decode(rest)
    decreases |s|
  {
    hide EscapeChar, Decode;
    if s == [] {
      assert Escape(s) + rest == rest;
    } else {
      var n := |s| - 1;
      assert Escape(s) + rest == Escape(s[..n]) + (EscapeChar(s[n]) + rest);
      DecodeEscape(s[..n], EscapeChar(s[n]) + rest);
      DecodeEscapedChar(s[n], rest);
      assert s == s[..n] + [s[n]];
      assert s[..n] + ([s[n]] + Decode(rest)) == s + Decode(rest);
    }
  }

  lemma DecodeEscapedChar(c: char, rest: string)
    ensures Decode(EscapeChar(c) + rest) == [c] + Decode(rest)
  {
    var e := EscapeChar(c) + rest;
    if |EscapeChar(c)| == 3 {
      assert e[3..] == rest;
    } else {
      assert e[1..] == rest;
    }
  }

  /** A hexadecimal digit, in either case. */
  predicate IsHex(c: char, v: nat) { v < 16 && (c == "0123456789abcdef"[v] || c == "0123456789ABCDEF"[v]) }

  lemma HexDigitOf(c: char, v: nat)
    requires IsHex(c, v)
    ensures HexDigit(c) == v
  {
  }

  /** A percent sign and the two digits of a byte give that byte; a NUL is dropped. */
  lemma DecodeHex(a: char, b: char, v: nat, rest: string)
    requires v < 256 && IsHex(a, v / 16) && IsHex(b, v % 16)
    ensures Decode(['%', a, b] + rest) == (if v == 0 then "" else [v as char]) + Decode(rest)
  {
    HexDigitOf(a, v / 16);
    HexDigitOf(b, v % 16);
    hide IsHex, HexDigit;
    var s := ['%', a, b] + rest;
    assert s[3..] == rest;
  }

  /** A plus sign stands for a space; other characters for themselves, and so does a percent sign near the end. */
  lemma DecodePlain(c: char, rest: string)
    requires c != '%' || |rest| < 2
    ensures Decode([c] + rest) == [if c == '+' then ' ' else c] + Decode(rest)
  {
    var s := [c] + rest;
    assert s[1..] == rest;
  }

  lemma EscapedCharHasNoSeparator(c: char)
    ensures '&' !in EscapeChar(c) && '$' !in EscapeChar(c)
  {
  }

  /** Escaped text has no character at which the parser would end a value. */
  lemma {:induction false} EscapeHasNoSeparator(s: string)
    ensures '&' !in Escape(s) && '$' !in Escape(s)
  {
    hide EscapeChar;
    if s != [] {
      EscapeHasNoSeparator(s[..|s| - 1]);
      EscapedCharHasNoSeparator(s[|s| - 1]);
    }
  }

  // ---------------------------------------------------------------------------------------
  // Parsing

  datatype Pair = Pair(key: string, value: string)

  /** key and value are what has been read of the current pair; pos tells which of them is being read. */
  datatype Scanner = Scanner(key: string, value: string, inValue: bool, table: map<string, string>)

  /** map::insert keeps an existing entry. */
  function Insert(table: map<string, string>, key: string, value: string): map<string, string> {
    if key in table then table else table[key := value]
  }

  function ScanChar(p: Scanner, c: char): Scanner {
    if c == '=' && !p.inValue then p.(inValue := true)
    else if (c == '&' || c == '$') && p.inValue then Scanner("", "", false, Insert(p.table, p.key, Decode(p.value)))
    else if !p.inValue then p.(key := p.key + [c])
    else p.(value := p.value + [c])
  }

  function Scan(p: Scanner, s: string): Scanner {
    if s == [] then p else ScanChar(Scan(p, s[..|s| - 1]), s[|s| - 1])
  }

  function Finish(p: Scanner): map<string, string> {
    if |p.value| > 0 || |p.key| > 0 then Insert(p.table, p.key, Decode(p.value)) else p.table
  }

  function Parse(table: map<string, string>, s: string): map<string, string> {
    Finish(Scan(Scanner("", "", false, table), s))
  }

  /** key=value&key=value..., with escaped values. */
  function Query(pairs: seq<Pair>): string {
    if pairs == [] then ""
    else if |pairs| == 1 then Field(pairs[0])
    else Query(pairs[..|pairs| - 1]) + "&" + Field(pairs[|pairs| - 1])
  }

  function Field(p: Pair): string { p.key + "=" + Escape(p.value) }

  /** The table with the pairs added in order; the first value of a key stays. */
  function Collect(table: map<string, string>, pairs: seq<Pair>): map<string, string> {
    if pairs == [] then table
    else Insert(Collect(table, pairs[..|pairs| - 1]), pairs[|pairs| - 1].key, pairs[|pairs| - 1].value)
  }

  lemma {:induction false} ScanAppend(p: Scanner, a: string, b: string)
    ensures Scan(p, a + b) == Scan(Scan(p, a), b)
    decreases |b|
  {
    if b == [] {
      assert a + b == a;
    } else {
      var n := |b| - 1;
      assert (a + b)[..|a| + n] == a + b[..n];
      ScanAppend(p, a, b[..n]);
    }
  }

  lemma {:induction false} ScanKey(p: Scanner, k: string)
    requires !p.inValue && '=' !in k
    ensures Scan(p, k) == p.(key := p.key + k)
  {
    if k == [] {
      assert p.key + k == p.key;
    } else {
      var n := |k| - 1;
      ScanKey(p, k[..n]);
      assert p.key + k[..n] + [k[n]] == p.key + k;
    }
  }

  lemma {:induction false} ScanValue(p: Scanner, v: string)
    requires p.inValue && '&' !in v && '$' !in v
    ensures Scan(p, v) == p.(value := p.value + v)
  {
    if v == [] {
      assert p.value + v == p.value;
    } else {
      var n := |v| - 1;
      ScanValue(p, v[..n]);
      assert p.value + v[..n] + [v[n]] == p.value + v;
    }
  }

  lemma ScanField(table: map<string, string>, p: Pair)
    requires '=' !in p.key
    ensures Scan(Scanner("", "", false, table), Field(p)) == Scanner(p.key, Escape(p.value), true, table)
  {
    var start := Scanner("", "", false, table);
    ScanKey(start, p.key);
    assert "" + p.key == p.key;
    ScanAppend(start, p.key, "=");
    assert Scan(Scan(start, p.key), "=") == ScanChar(Scan(start, p.key), '=') by { assert "="[..0] == ""; }
    EscapeHasNoSeparator(p.value);
    ScanValue(Scanner(p.key, "", true, table), Escape(p.value));
    assert "" + Escape(p.value) == Escape(p.value);
    ScanAppend(start, p.key + "=", Escape(p.value));
  }

  ghost predicate KeysOk(pairs: seq<Pair>) { forall i | 0 <= i < |pairs| :: '=' !in pairs[i].key }

  lemma {:induction false} ScanQuery(table: map<string, string>, pairs: seq<Pair>)
    requires KeysOk(pairs) && pairs != []
    ensures var n := |pairs| - 1;
            Scan(Scanner("", "", false, table), Query(pairs)) ==
                Scanner(pairs[n].key, Escape(pairs[n].value), true, Collect(table, pairs[..n]))
  {
    var n := |pairs| - 1;
    var start := Scanner("", "", false, table);
    if n == 0 {
      assert pairs[..0] == [];
      ScanField(table, pairs[0]);
    } else {
      var before := pairs[..n];
      ScanQuery(table, before);
      ScanAppend(start, Query(before), "&");
      var q := Scan(start, Query(before));
      assert Scan(q, "&") == ScanChar(q, '&') by { assert "&"[..0] == ""; }
      DecodeEscape(before[n - 1].value, "");
      assert Escape(before[n - 1].value) + "" == Escape(before[n - 1].value)
          && before[n - 1].value + "" == before[n - 1].value;
      ScanField(Collect(table, before), pairs[n]);
      ScanAppend(start, Query(before) + "&", Field(pairs[n]));
    }
  }

  /**
   * Parsing a query gives back every pair, the first value of a key that comes twice; only a pair with
   * empty key and empty value in the last place is lost.
   */
  lemma ParseQuery(table: map<string, string>, pairs: seq<Pair>)
    requires KeysOk(pairs)
    ensures pairs == [] ==> Parse(table, Query(pairs)) == table
    ensures pairs != [] && pairs[|pairs| - 1] != Pair("", "") ==> Parse(table, Query(pairs)) == Collect(table, pairs)
    ensures pairs != [] && pairs[|pairs| - 1] == Pair("", "") ==>
            Parse(table, Query(pairs)) == Collect(table, pairs[..|pairs| - 1])
  {
    if pairs != [] {
      var n := |pairs| - 1;
      ScanQuery(table, pairs);
      DecodeEscape(pairs[n].value, "");
      assert Escape(pairs[n].value) + "" == Escape(pairs[n].value) && pairs[n].value + "" == pairs[n].value;
      assert Escape(pairs[n].value) == "" ==> pairs[n].value == "";
    }
  }

  ghost predicate DistinctKeys(pairs: seq<Pair>) { forall i, j | 0 <= i < j < |pairs| :: pairs[i].key != pairs[j].key }

  /** No key that the parser has found contains '='. */
  ghost predicate CleanKeys(p: Scanner) { '=' !in p.key && forall k | k in p.table :: '=' !in k }

  lemma {:induction false} ScanCleanKeys(p: Scanner, s: string)
    requires CleanKeys(p)
    ensures CleanKeys(Scan(p, s))
  {
    if s != [] {
      ScanCleanKeys(p, s[..|s| - 1]);
    }
  }

  /** The table of the pairs, and no more. */
  ghost predicate IsTable(t: map<string, string>, pairs: seq<Pair>) {
    t.Keys == (set p | p in pairs :: p.key) && forall p | p in pairs :: p.key in t && t[p.key] == p.value
  }

  lemma {:induction false} CollectDistinct(pairs: seq<Pair>)
    requires DistinctKeys(pairs)
    ensures IsTable(Collect(map[], pairs), pairs)
  {
    if pairs != [] {
      var n := |pairs| - 1;
      CollectDistinct(pairs[..n]);
      assert pairs == pairs[..n] + [pairs[n]];
      forall p | p in pairs[..n] ensures p.key != pairs[n].key { }
    }
  }

  lemma MissingKey(t: map<string, string>, pairs: seq<Pair>, i: nat)
    requires i < |pairs| && pairs[i].key !in t
    ensures !IsTable(t, pairs)
  {
    assert pairs[i] in pairs;
  }

  lemma LastKeyMissing(t: map<string, string>, pairs: seq<Pair>, n: nat)
    requires DistinctKeys(pairs) && n == |pairs| - 1 && IsTable(t, pairs[..n])
    ensures pairs[n].key !in t
  {
    forall p | p in pairs[..n] ensures p.key != pairs[n].key { }
  }

  lemma CleanTableRoundTrip(pairs: seq<Pair>)
    requires KeysOk(pairs) && DistinctKeys(pairs)
    ensures IsTable(Parse(map[], Query(pairs)), pairs) <==> (pairs == [] || pairs[|pairs| - 1] != Pair("", ""))
  {
    hide Parse, Query, Collect, IsTable;
    ParseQuery(map[], pairs);
    CollectDistinct(pairs);
    if pairs == [] {
      CollectNothing(map[], pairs);
    } else if pairs[|pairs| - 1] == Pair("", "") {
      var n := |pairs| - 1;
      CollectDistinct(pairs[..n]);
      LastKeyMissing(Collect(map[], pairs[..n]), pairs, n);
      MissingKey(Collect(map[], pairs[..n]), pairs, n);
    }
  }

  lemma CollectNothing(t: map<string, string>, pairs: seq<Pair>)
    requires pairs == []
    ensures Collect(t, pairs) == t
  {
  }

  lemma ParsedKeysClean(s: string, k: string)
    requires '=' in k
    ensures k !in Parse(map[], s)
  {
    ScanCleanKeys(Scanner("", "", false, map[]), s);
  }

  /**
   * For distinct keys the parser returns the original table if and only if no key contains '=' and the last
   * pair is not a pair of empty strings.
   */
  lemma TableRoundTrip(pairs: seq<Pair>)
    requires DistinctKeys(pairs)
    ensures IsTable(Parse(map[], Query(pairs)), pairs) <==>
            KeysOk(pairs) && (pairs == [] || pairs[|pairs| - 1] != Pair("", ""))
  {
    hide Parse, Query, IsTable;
    if i :| 0 <= i < |pairs| && '=' in pairs[i].key {
      ParsedKeysClean(Query(pairs), pairs[i].key);
      MissingKey(Parse(map[], Query(pairs)), pairs, i);
    } else {
      CleanTableRoundTrip(pairs);
    }
  }

  // ---------------------------------------------------------------------------------------
  // The programs

  method EscapeParamString(s: string) returns (r: string)
    ensures r == Escape(s)
  {
    hide EscapeChar;
    r := "";
    for i := 0 to |s|
      invariant r == Escape(s[..i])
    {
      assert s[..i + 1][..i] == s[..i];
      r := r + EscapeChar(s[i]);
    }
    assert s[..|s|] == s;
  }

  method HtmlDecode(s: string) returns (r: string)
    ensures r == Decode(s)
  {
    assert Decode("") == "";
    hide Decode, HexText;
    r := "";
    var i := 0;
    assert s[0..] == s;
    while i < |s|
      invariant i <= |s| && r + Decode(s[i..]) == Decode(s)
    {
      DecodeStep(s, i);
      ghost var before, at := r, i;
      if s[i] == '%' && i + 2 < |s| {
        r := r + HexText(s[i + 1], s[i + 2]);
        i := i + 2;
      } else if s[i] == '+' {
        r := r + " ";
      } else {
        r := r + [s[i]];
      }
      i := i + 1;
      Regroup(before, r[|before|..], Decode(s[i..]));
    }
    assert s[i..] == "";
  }

  lemma Regroup(a: string, b: string, c: string)
    ensures a + (b + c) == a + b + c
  {
  }

  lemma DecodeStep(s: string, i: nat)
    requires i < |s|
    ensures if s[i] == '%' && i + 2 < |s| then Decode(s[i..]) == HexText(s[i + 1], s[i + 2]) + Decode(s[i + 3..])
            else Decode(s[i..]) == [if s[i] == '+' then ' ' else s[i]] + Decode(s[i + 1..])
  {
    assert s[i..][1..] == s[i + 1..];
    if i + 2 < |s| { assert s[i..][3..] == s[i + 3..]; }
  }

  method ParseParamStrHttp(s: string, before: map<string, string>) returns (table: map<string, string>)
    ensures table == Parse(before, s)
  {
    hide Decode;
    var key, value, inValue := "", "", false;
    table := before;
    for i := 0 to |s|
      invariant Scan(Scanner("", "", false, before), s[..i]) == Scanner(key, value, inValue, table)
    {
      assert s[..i + 1][..i] == s[..i];
      var ch := s[i];
      if ch == '=' && !inValue {
        inValue := true;
      } else if (ch == '&' || ch == '$') && inValue {
        inValue := false;
        var decoded := HtmlDecode(value);
        if key !in table { table := table[key := decoded]; }
        key, value := "", "";
      } else if !inValue {
        key := key + [ch];
      } else {
        value := value + [ch];
      }
    }
    assert s[..|s|] == s;
    if |value| > 0 || |key| > 0 {
      var decoded := HtmlDecode(value);
      if key !in table { table := table[key := decoded]; }
    }
  }
}
